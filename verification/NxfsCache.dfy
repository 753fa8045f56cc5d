/** The NXFS block cache (fs/nxfs_io.c): a small array of block copies with
    least-recently-used replacement.  It may hold several copies of one block, of
    which a write refreshes only the first, and yet every read returns what is on
    the device. */
module NxfsCache {
  import opened Bitmap

  const CACHE_BLOCKS := 64

  /** Stamps are 32-bit; the last value is never reached while this many or fewer
      ticks have passed since the cache was last emptied. */
  const TICK_LIMIT := 0xFFFF_FFFE

  datatype Entry = Entry(block: nat, stamp: nat, data: Block, valid: bool)

  ghost predicate Caches(cache: seq<Entry>, i: int, b: nat) {
    0 <= i < |cache| && cache[i].valid && cache[i].block == b
  }

  ghost predicate FirstCopy(cache: seq<Entry>, i: int, b: nat) {
    Caches(cache, i, b) && forall j {:trigger Caches(cache, j, b)} :: 0 <= j < i ==> !Caches(cache, j, b)
  }

  /** `data` is what the device holds in block `b`. */
  ghost predicate Fresh(disk: seq<Block>, b: nat, data: Block) {
    b < |disk| && data == disk[b]
  }

  /** The first copy of each block is fresh, and every later copy is either fresh
      too or older than the first, so that it is evicted before the first is. */
  ghost predicate Coherent(cache: seq<Entry>, ticks: nat, disk: seq<Block>) {
    && (forall i :: 0 <= i < |cache| ==> cache[i].stamp <= ticks)
    && (forall i, b {:trigger FirstCopy(cache, i, b)} :: FirstCopy(cache, i, b) ==> Fresh(disk, b, cache[i].data))
    && (forall i, j, b {:trigger FirstCopy(cache, i, b), Caches(cache, j, b)} ::
          FirstCopy(cache, i, b) && Caches(cache, j, b) && j != i ==>
          Fresh(disk, b, cache[j].data) || cache[j].stamp < cache[i].stamp)
  }

  ghost predicate SameBut(disk: seq<Block>, disk': seq<Block>, b: nat) {
    |disk'| == |disk| && forall x :: 0 <= x < |disk| && x != b ==> disk'[x] == disk[x]
  }

  /** Touching the first copy of a block, or refreshing it after a write. */
  lemma TouchKeeps(cache: seq<Entry>, ticks: nat, disk: seq<Block>, i: nat, b: nat, data: Block, disk': seq<Block>)
    requires Coherent(cache, ticks, disk) && FirstCopy(cache, i, b)
    requires SameBut(disk, disk', b) && Fresh(disk', b, data)
    ensures Coherent(cache[i := Entry(b, ticks + 1, data, true)], ticks + 1, disk')
  {
    var cache' := cache[i := Entry(b, ticks + 1, data, true)];
    assert forall j, x {:trigger Caches(cache', j, x)} :: Caches(cache', j, x) == Caches(cache, j, x);
    forall j, x | FirstCopy(cache', j, x) ensures FirstCopy(cache, j, x) {
      assert Caches(cache', j, x);
      forall m | 0 <= m < j ensures !Caches(cache, m, x) { assert !Caches(cache', m, x); }
    }
  }

  /** A block with no copy in the cache may change on the device. */
  lemma UncachedWrite(cache: seq<Entry>, ticks: nat, disk: seq<Block>, b: nat, disk': seq<Block>)
    requires Coherent(cache, ticks, disk) && SameBut(disk, disk', b)
    requires forall i {:trigger Caches(cache, i, b)} :: !Caches(cache, i, b)
    ensures Coherent(cache, ticks, disk')
  {
    forall i, x | FirstCopy(cache, i, x) ensures x != b {
      assert !Caches(cache, i, b);
    }
  }

  /** The slot `nxfs_cache_put` replaces: the first unused one, or else the first
      with the oldest stamp. */
  ghost predicate Victim(cache: seq<Entry>, v: nat) {
    && v < |cache|
    && (cache[v].valid ==> forall i :: 0 <= i < |cache| ==> cache[i].valid && cache[v].stamp <= cache[i].stamp)
  }

  /** Evicting the victim keeps the cache coherent: if it was a first copy, no
      stale copy of its block is left behind. */
  lemma EvictKeeps(cache: seq<Entry>, ticks: nat, disk: seq<Block>, v: nat)
    requires Coherent(cache, ticks, disk) && Victim(cache, v)
    ensures Coherent(cache[v := cache[v].(valid := false)], ticks, disk)
  {
    var cache' := cache[v := cache[v].(valid := false)];
    assert forall j, x {:trigger Caches(cache', j, x)} :: Caches(cache', j, x) == (j != v && Caches(cache, j, x));
    forall i, b | FirstCopy(cache', i, b)
      ensures Fresh(disk, b, cache'[i].data)
      ensures forall j {:trigger Caches(cache', j, b)} :: Caches(cache', j, b) && j != i ==>
        Fresh(disk, b, cache'[j].data) || cache'[j].stamp < cache'[i].stamp
    {
      assert Caches(cache', i, b) && Caches(cache, i, b);
      if v < i && Caches(cache, v, b) {
        assert FirstCopy(cache, v, b) by {
          forall m | 0 <= m < v ensures !Caches(cache, m, b) { assert !Caches(cache', m, b); }
        }
      } else {
        assert FirstCopy(cache, i, b) by {
          forall m | 0 <= m < i ensures !Caches(cache, m, b) { assert !Caches(cache', m, b); }
        }
      }
    }
  }

  /** Filling an unused slot with a fresh copy, possibly the second of its block. */
  lemma FillKeeps(cache: seq<Entry>, ticks: nat, disk: seq<Block>, v: nat, b: nat, data: Block)
    requires Coherent(cache, ticks, disk) && v < |cache| && !cache[v].valid && Fresh(disk, b, data)
    ensures Coherent(cache[v := Entry(b, ticks + 1, data, true)], ticks + 1, disk)
  {
    var cache' := cache[v := Entry(b, ticks + 1, data, true)];
    assert forall j, x {:trigger Caches(cache', j, x)} ::
      Caches(cache', j, x) == ((j == v && x == b) || Caches(cache, j, x));
    forall i, x | FirstCopy(cache', i, x)
      ensures Fresh(disk, x, cache'[i].data)
      ensures forall j {:trigger Caches(cache', j, x)} :: Caches(cache', j, x) && j != i ==>
        Fresh(disk, x, cache'[j].data) || cache'[j].stamp < cache'[i].stamp
    {
      assert Caches(cache', i, x);
      if i != v {
        assert FirstCopy(cache, i, x) by {
          forall m | 0 <= m < i ensures !Caches(cache, m, x) { assert !Caches(cache', m, x); }
        }
      }
    }
  }

  lemma PutKeeps(cache: seq<Entry>, ticks: nat, disk: seq<Block>, v: nat, b: nat, data: Block)
    requires Coherent(cache, ticks, disk) && Victim(cache, v) && Fresh(disk, b, data)
    ensures Coherent(cache[v := Entry(b, ticks + 1, data, true)], ticks + 1, disk)
  {
    var freed := cache[v := cache[v].(valid := false)];
    EvictKeeps(cache, ticks, disk, v);
    FillKeeps(freed, ticks, disk, v, b, data);
    assert freed[v := Entry(b, ticks + 1, data, true)] == cache[v := Entry(b, ticks + 1, data, true)];
  }

  /** Byte `k` of the device. */
  function FlatByte(disk: seq<Block>, k: nat): Byte {
    if k / 512 < |disk| then disk[k / 512][k % 512] else 0
  }

  /** How many blocks a run of bytes meets, if any. */
  ghost function Touched(offset: nat, size: nat): nat { (offset % 512 + size + 511) / 512 }

  /** Only blocks from `lo` on and below `hi` differ. */
  ghost predicate KeptOutside(disk: seq<Block>, disk': seq<Block>, lo: nat, hi: nat) {
    |disk'| == |disk| && forall b {:trigger disk'[b]} :: 0 <= b < |disk| && !(lo <= b < hi) ==> disk'[b] == disk[b]
  }

  /** Reading goes on at the start of a block. */
  lemma PartSpan(offset: nat, size: nat, have: nat, parts: nat)
    requires have < size && if parts == 0 then have == 0 else offset % 512 + have == 512 * parts
    ensures parts < Touched(offset, size)
    ensures var n := Min(512 - (offset + have) % 512, size - have);
            have + n < size ==> offset % 512 + have + n == 512 * (parts + 1)
  {
    assert offset == 512 * (offset / 512) + offset % 512;
    if parts > 0 {
      assert offset + have == 512 * (offset / 512 + parts);
    }
  }

  /** The blocks of one batch lie among those of the whole write, after the ones
      already written. */
  lemma BatchSpan(offset: nat, size: nat, done: nat, len: nat)
    requires done < size && (done > 0 ==> (offset + done) % 512 == 0)
    requires len == Min(size - done, 4096 - (offset + done) % 512)
    ensures var start, count := (offset + done) / 512, ((offset + done) % 512 + len + 511) / 512;
            && offset / 512 <= start && start + count <= offset / 512 + Touched(offset, size)
            && (if done == 0 then 0 else Touched(offset, done)) + count == Touched(offset, done + len)
            && (done + len < size ==> (offset + done + len) % 512 == 0)
  {
    var whole := offset / 512;
    assert offset == 512 * whole + offset % 512;
    if done > 0 {
      var start := (offset + done) / 512;
      assert offset + done == 512 * start;
      assert offset % 512 + done == 512 * (start - whole);
    }
  }

  class CachedVolume {
    const reliable: bool       // whether the device never fails
    var disk: seq<Block>       // the device's blocks
    var cache: seq<Entry>
    var epoch: nat             // a 32-bit counter
    var dirty: bool
    var writeError: bool
    ghost var ticks: nat       // what the counter would be without wrapping

    ghost predicate Valid()
      reads this
    {
      && |cache| == CACHE_BLOCKS && epoch == ticks % 0x1_0000_0000
      && (ticks <= TICK_LIMIT ==> Coherent(cache, ticks, disk))
    }

    constructor (disk: seq<Block>, reliable: bool)
      ensures Valid() && this.disk == disk && this.reliable == reliable && !dirty && !writeError && ticks == 0
    {
      this.disk, this.reliable := disk, reliable;
      var unused := Entry(0, 0, ZeroBlock(), false);
      cache := seq(CACHE_BLOCKS, _ => unused);
      epoch, ticks, dirty, writeError := 0, 0, false, false;
    }

    /** The device: a transfer either succeeds or fails; a failed write leaves the
        blocks it covers in any state. */
    method DeviceRead(start: nat, count: nat) returns (ok: bool, blocks: seq<Block>)
      ensures ok ==> start + count <= |disk| && blocks == disk[start..start + count]
      ensures reliable && start + count <= |disk| ==> ok
    {
      ok := *;
      ok := ok || reliable;
      if start + count > |disk| {
        ok := false;
      }
      blocks := if ok then disk[start..start + count] else [];
    }

    method DeviceWrite(start: nat, blocks: seq<Block>) returns (ok: bool)
      modifies this`disk
      ensures |disk| == |old(disk)|
      ensures forall b :: 0 <= b < |disk| && !(start <= b < start + |blocks|) ==> disk[b] == old(disk)[b]
      ensures ok ==> start + |blocks| <= |disk| && disk == old(disk)[..start] + blocks + old(disk)[start + |blocks|..]
      ensures reliable && start + |blocks| <= |disk| ==> ok
    {
      ok := *;
      ok := ok || reliable;
      if start + |blocks| > |disk| {
        return false;
      }
      var garbage: seq<Block> := *;
      if ok || |garbage| != |blocks| {
        garbage := blocks;
      }
      disk := disk[..start] + garbage + disk[start + |blocks|..];
    }

    /** Index of the first copy of a block, now stamped as most recently used; -1
        when there is none. */
    method CacheGet(b: nat) returns (hit: int)
      requires Valid()
      modifies this`cache, this`epoch, this`ticks
      ensures Valid()
      ensures hit < 0 ==>
        cache == old(cache) && ticks == old(ticks) && forall i {:trigger Caches(cache, i, b)} :: !Caches(cache, i, b)
      ensures hit >= 0 ==> FirstCopy(old(cache), hit, b) && ticks == old(ticks) + 1
      ensures hit >= 0 ==> cache == old(cache)[hit := old(cache)[hit].(stamp := epoch)]
      ensures hit >= 0 && ticks <= TICK_LIMIT ==> Fresh(disk, b, cache[hit].data)
    {
      for i := 0 to CACHE_BLOCKS
        invariant cache == old(cache) && ticks == old(ticks)
        invariant forall j {:trigger Caches(cache, j, b)} :: 0 <= j < i ==> !Caches(cache, j, b)
      {
        if cache[i].valid && cache[i].block == b {
          assert FirstCopy(cache, i, b) by { assert Caches(cache, i, b); }
          if ticks + 1 <= TICK_LIMIT {
            TouchKeeps(cache, ticks, disk, i, b, cache[i].data, disk);
          }
          epoch := (epoch + 1) % 0x1_0000_0000;
          ticks := ticks + 1;
          cache := cache[i := cache[i].(stamp := epoch)];
          return i;
        }
      }
      return -1;
    }

    method PickVictim() returns (next: nat)
      requires Valid()
      ensures next < CACHE_BLOCKS
      ensures ticks <= TICK_LIMIT ==> Victim(cache, next)
      ensures ticks <= TICK_LIMIT ==>
        forall j :: 0 <= j < next ==> cache[j].valid && (cache[next].valid ==> cache[j].stamp > cache[next].stamp)
    {
      next := 0;
      var oldestIndex, oldestStamp := 0, 0xFFFF_FFFF;
      for i := 0 to CACHE_BLOCKS
        invariant next == oldestIndex < CACHE_BLOCKS
        invariant forall j :: 0 <= j < i ==> cache[j].valid && oldestStamp <= cache[j].stamp
        invariant oldestStamp == 0xFFFF_FFFF || oldestStamp == cache[oldestIndex].stamp
        invariant i > 0 && ticks <= TICK_LIMIT ==> oldestStamp == cache[oldestIndex].stamp
        invariant ticks <= TICK_LIMIT ==> forall j :: 0 <= j < oldestIndex ==>
          cache[j].valid && cache[j].stamp > oldestStamp
      {
        if !cache[i].valid {
          return i;
        }
        if cache[i].stamp < oldestStamp {
          oldestStamp, oldestIndex := cache[i].stamp, i;
        }
        next := oldestIndex;
      }
    }

    /** Stores a copy of a block, replacing an unused or the oldest entry; the
        block may already have a copy. */
    method CachePut(b: nat, data: Block) returns (ghost v: nat)
      requires Valid() && (ticks <= TICK_LIMIT ==> Fresh(disk, b, data))
      modifies this`cache, this`epoch, this`ticks
      ensures Valid() && ticks == old(ticks) + 1
      ensures v < CACHE_BLOCKS && (old(ticks) <= TICK_LIMIT ==> Victim(old(cache), v))
      ensures cache == old(cache)[v := Entry(b, epoch, data, true)]
    {
      var next := PickVictim();
      if ticks + 1 <= TICK_LIMIT {
        PutKeeps(cache, ticks, disk, next, b, data);
      }
      epoch := (epoch + 1) % 0x1_0000_0000;
      ticks := ticks + 1;
      cache := cache[next := Entry(b, epoch, data, true)];
      v := next;
    }

    /** Refreshes the first copy of a block, if there is one.  `target` is the
        device as it is or is about to be. */
    method CacheUpdate(b: nat, data: Block, ghost was: seq<Block>, ghost target: seq<Block>)
      requires |cache| == CACHE_BLOCKS && epoch == ticks % 0x1_0000_0000
      requires ticks <= TICK_LIMIT ==> Coherent(cache, ticks, was) && Fresh(target, b, data) && SameBut(was, target, b)
      modifies this`cache, this`epoch, this`ticks
      ensures |cache| == CACHE_BLOCKS && epoch == ticks % 0x1_0000_0000 && old(ticks) <= ticks <= old(ticks) + 1
      ensures ticks <= TICK_LIMIT ==> Coherent(cache, ticks, target)
      ensures forall i {:trigger FirstCopy(old(cache), i, b)} :: FirstCopy(old(cache), i, b) ==>
        cache == old(cache)[i := Entry(b, epoch, data, true)] && ticks == old(ticks) + 1
      ensures (forall i {:trigger Caches(old(cache), i, b)} :: !Caches(old(cache), i, b)) ==> cache == old(cache)
      ensures (forall i {:trigger Caches(old(cache), i, b)} :: !Caches(old(cache), i, b)) ==> ticks == old(ticks)
    {
      for i := 0 to CACHE_BLOCKS
        invariant cache == old(cache) && ticks == old(ticks) && epoch == old(epoch)
        invariant forall j {:trigger Caches(cache, j, b)} :: 0 <= j < i ==> !Caches(cache, j, b)
      {
        if cache[i].valid && cache[i].block == b {
          assert FirstCopy(cache, i, b) by { assert Caches(cache, i, b); }
          if ticks + 1 <= TICK_LIMIT {
            TouchKeeps(cache, ticks, was, i, b, data, target);
          }
          epoch := (epoch + 1) % 0x1_0000_0000;
          ticks := ticks + 1;
          cache := cache[i := Entry(b, epoch, data, true)];
          return;
        }
      }
      if ticks <= TICK_LIMIT {
        UncachedWrite(cache, ticks, was, b, target);
      }
    }

    method InvalidateAll()
      requires |cache| == CACHE_BLOCKS
      modifies this`cache, this`epoch, this`ticks
      ensures Valid() && ticks == 0 && forall i :: 0 <= i < CACHE_BLOCKS ==> !cache[i].valid
    {
      var i := 0;
      while i < CACHE_BLOCKS
        invariant 0 <= i <= CACHE_BLOCKS && |cache| == CACHE_BLOCKS
        invariant forall j :: 0 <= j < i ==> !cache[j].valid && cache[j].stamp == 0
      {
        cache := cache[i := cache[i].(valid := false, stamp := 0)];
        i := i + 1;
      }
      epoch, ticks := 0, 0;
      assert forall j, x {:trigger Caches(cache, j, x)} :: !Caches(cache, j, x);
    }

    /** A failed write is remembered and empties the cache. */
    method MarkWriteFailed()
      requires |cache| == CACHE_BLOCKS
      modifies this`cache, this`epoch, this`ticks, this`dirty, this`writeError
      ensures Valid() && ticks == 0 && writeError && dirty
    {
      writeError, dirty := true, true;
      InvalidateAll();
    }

    /** Reads one block through the cache. */
    method ReadBlock(b: nat) returns (ok: bool, out: Block)
      requires Valid()
      modifies this`cache, this`epoch, this`ticks
      ensures Valid() && old(ticks) <= ticks <= old(ticks) + 1
      ensures ok && ticks <= TICK_LIMIT ==> Fresh(disk, b, out)
      ensures reliable && b < |disk| ==> ok
    {
      out := ZeroBlock();
      var hit := CacheGet(b);
      if hit >= 0 {
        return true, cache[hit].data;
      }
      var blocks;
      ok, blocks := DeviceRead(b, 1);
      if !ok {
        return;
      }
      out := blocks[0];
      ghost var _ := CachePut(b, out);
    }

    /** The blocks from `start` on are what the device holds there. */
    ghost predicate FreshRun(start: nat, blocks: seq<Block>)
      reads this`disk
    {
      forall i :: 0 <= i < |blocks| ==> Fresh(disk, start + i, blocks[i])
    }

    /** Reads a run of blocks: cached ones up to the first miss, the rest from the
        device; every block read is then cached again, copy or no copy. */
    method ReadBlocks(start: nat, count: nat) returns (ok: bool, out: seq<Block>)
      requires Valid()
      modifies this`cache, this`epoch, this`ticks
      ensures Valid() && old(ticks) <= ticks <= old(ticks) + count
      ensures ok ==> |out| == count && count > 0
      ensures ok && ticks <= TICK_LIMIT ==> FreshRun(start, out)
      ensures reliable && count > 0 && start + count <= |disk| ==> ok
    {
      out := [];
      if count == 0 {
        return false, [];
      }
      while |out| < count
        invariant Valid() && old(ticks) <= ticks <= old(ticks) + |out| && |out| <= count
        invariant ticks <= TICK_LIMIT ==> FreshRun(start, out)
      {
        var hit := CacheGet(start + |out|);
        if hit < 0 {
          break;
        }
        out := out + [cache[hit].data];
      }
      if |out| == count {
        return true, out;
      }
      var blocks;
      ok, blocks := DeviceRead(start + |out|, count - |out|);
      if !ok {
        return;
      }
      var cached := |out|;
      ghost var front := out;
      out := out + blocks;
      forall j | cached <= j < count ensures Fresh(disk, start + j, out[j]) { assert out[j] == blocks[j - cached]; }
      assert forall j :: 0 <= j < cached ==> out[j] == front[j];
      for i := cached to count
        invariant Valid() && old(ticks) <= ticks <= old(ticks) + i
        invariant |out| == count && (ticks <= TICK_LIMIT ==> FreshRun(start, out))
        invariant forall j :: cached <= j < count ==> Fresh(disk, start + j, out[j])
      {
        ghost var _ := CachePut(start + i, out[i]);
      }
    }

    /** Writes one block to the device and refreshes its first copy.  After a failed
        write every further one is refused. */
    method WriteBlock(b: nat, data: Block) returns (ok: bool)
      requires Valid()
      modifies this
      ensures Valid() && |disk| == |old(disk)|
      ensures ok ==> b < |disk| && disk == old(disk)[b := data] && !old(writeError)
      ensures forall x :: 0 <= x < |disk| && x != b ==> disk[x] == old(disk)[x]
      ensures old(writeError) ==> writeError && disk == old(disk)
      ensures ticks <= old(ticks) + 1 && (writeError ==> old(writeError) || !ok)
      ensures reliable && b < |disk| && !old(writeError) ==> ok
    {
      if writeError {
        return false;
      }
      ok := DeviceWrite(b, [data]);
      if !ok {
        MarkWriteFailed();
        return;
      }
      assert disk == old(disk)[b := data];
      dirty := true;
      CacheUpdate(b, data, old(disk), disk);
    }

    method Flush() returns (ok: bool)
      requires Valid()
      modifies this`cache, this`epoch, this`ticks, this`dirty, this`writeError
      ensures Valid() && ticks <= old(ticks) && (writeError ==> !ok)
      ensures old(writeError) ==> !ok && writeError
      ensures ok ==> !dirty && !writeError
      ensures reliable && !old(writeError) ==> ok
    {
      if writeError {
        return false;
      }
      if !dirty {
        return true;
      }
      var failed: bool := *;
      if failed && !reliable {
        MarkWriteFailed();
        return false;
      }
      dirty := false;
      return true;
    }

    /** `out` holds the device's bytes from `offset` on. */
    ghost predicate Flat(offset: nat, out: seq<Byte>)
      reads this`disk
    {
      forall k {:trigger out[k]} :: 0 <= k < |out| ==> out[k] == FlatByte(disk, offset + k)
    }

    lemma FlatMore(offset: nat, out: seq<Byte>, more: seq<Byte>)
      requires Flat(offset, out) && Flat(offset + |out|, more)
      ensures Flat(offset, out + more)
    {
      forall k | 0 <= k < |out + more| ensures (out + more)[k] == FlatByte(disk, offset + k) {
        if k >= |out| {
          assert more[k - |out|] == FlatByte(disk, offset + |out| + (k - |out|));
        }
      }
    }

    lemma FlatPart(b: nat, data: Block, off: nat, chunk: nat)
      requires Fresh(disk, b, data) && off + chunk <= 512
      ensures Flat(512 * b + off, data[off..off + chunk])
    {
      var part := data[off..off + chunk];
      forall k | 0 <= k < |part| ensures part[k] == FlatByte(disk, 512 * b + off + k) {
        assert (512 * b + off + k) / 512 == b && (512 * b + off + k) % 512 == off + k;
      }
    }

    /** One block's share of a byte read: from the cache, or by reading up to eight
        blocks, all of which are cached again. */
    method ReadPart(b: nat, off: nat, rest: nat) returns (ok: bool, part: seq<Byte>)
      requires Valid() && off < 512 && rest > 0
      modifies this`cache, this`epoch, this`ticks
      ensures Valid() && old(ticks) <= ticks <= old(ticks) + 16
      ensures ok ==> |part| == Min(512 - off, rest)
      ensures ok && ticks <= TICK_LIMIT ==> b < |disk| && Flat(512 * b + off, part)
      ensures reliable && 512 * b + off + rest <= 512 * |disk| ==> ok
    {
      var chunk := Min(512 - off, rest);
      var hit := CacheGet(b);
      if hit >= 0 {
        if ticks <= TICK_LIMIT {
          FlatPart(b, cache[hit].data, off, chunk);
        }
        return true, cache[hit].data[off..off + chunk];
      }
      var count := Min(8, (rest + off + 511) / 512);
      var temp;
      ok, temp := ReadBlocks(b, count);
      if !ok {
        return false, [];
      }
      for i := 0 to count
        invariant Valid() && old(ticks) <= ticks <= old(ticks) + 8 + i && |temp| == count
        invariant ticks <= TICK_LIMIT ==> FreshRun(b, temp)
      {
        ghost var _ := CachePut(b + i, temp[i]);
      }
      if ticks <= TICK_LIMIT {
        assert Fresh(disk, b + 0, temp[0]);
        FlatPart(b, temp[0], off, chunk);
      }
      return true, temp[0][off..off + chunk];
    }

    /** Reads bytes at any offset of the device. */
    method ReadBytes(offset: nat, size: nat) returns (ok: bool, out: seq<Byte>)
      requires Valid()
      modifies this`cache, this`epoch, this`ticks
      ensures Valid() && old(ticks) <= ticks <= old(ticks) + 16 * Touched(offset, size)
      ensures ok ==> |out| == size
      ensures ok && ticks <= TICK_LIMIT ==> Flat(offset, out) && (size > 0 ==> offset + size <= 512 * |disk|)
      ensures reliable && offset + size <= 512 * |disk| ==> ok
    {
      out := [];
      ghost var parts := 0;
      while |out| < size
        invariant Valid() && |out| <= size && old(ticks) <= ticks <= old(ticks) + 16 * parts
        invariant parts <= Touched(offset, size)
        invariant |out| < size ==> if parts == 0 then |out| == 0 else offset % 512 + |out| == 512 * parts
        invariant ticks <= TICK_LIMIT ==> Flat(offset, out) && (out != [] ==> offset + |out| <= 512 * |disk|)
      {
        var absolute := offset + |out|;
        PartSpan(offset, size, |out|, parts);
        var part;
        ok, part := ReadPart(absolute / 512, absolute % 512, size - |out|);
        if !ok {
          return;
        }
        if ticks <= TICK_LIMIT {
          FlatMore(offset, out, part);
        }
        out, parts := out + part, parts + 1;
      }
      ok := true;
    }

    /** The blocks a byte write covers, from the cache or the device. */
    method LoadForWrite(start: nat, count: nat) returns (ok: bool, scratch: seq<Block>)
      requires Valid()
      modifies this`cache, this`epoch, this`ticks
      ensures Valid() && old(ticks) <= ticks <= old(ticks) + count
      ensures ok ==> |scratch| == count
      ensures ok && ticks <= TICK_LIMIT ==> FreshRun(start, scratch)
      ensures reliable && start + count <= |disk| ==> ok
    {
      scratch := [];
      while |scratch| < count
        invariant Valid() && old(ticks) <= ticks <= old(ticks) + |scratch| && |scratch| <= count
        invariant ticks <= TICK_LIMIT ==> FreshRun(start, scratch)
      {
        var b := start + |scratch|;
        var hit := CacheGet(b);
        if hit >= 0 {
          scratch := scratch + [cache[hit].data];
          continue;
        }
        var blocks;
        ok, blocks := DeviceRead(b, 1);
        if !ok {
          return;
        }
        scratch := scratch + [blocks[0]];
      }
      ok := true;
    }

    /** The cached first copies match the device as it will be once the first `n`
        blocks of `scratch` are in place. */
    ghost predicate Ahead(start: nat, scratch: seq<Block>, n: nat)
      reads this
    {
      && |cache| == CACHE_BLOCKS && epoch == ticks % 0x1_0000_0000 && n <= |scratch|
      && (ticks <= TICK_LIMIT ==>
         start + |scratch| <= |disk| && Coherent(cache, ticks, Replaced(disk, start, scratch, n)))
    }

    method UpdateAhead(start: nat, scratch: seq<Block>, i: nat, blk: Block)
      requires Ahead(start, scratch, i) && i < |scratch|
      modifies this`cache, this`epoch, this`ticks
      ensures Ahead(start, scratch[i := blk], i + 1) && old(ticks) <= ticks <= old(ticks) + 1
    {
      ghost var was, target := disk, disk;
      if ticks <= TICK_LIMIT {
        was, target := Replaced(disk, start, scratch, i), Replaced(disk, start, scratch[i := blk], i + 1);
        ReplacedNext(disk, start, scratch, i, blk);
      }
      CacheUpdate(start + i, blk, was, target);
    }

    /** Nothing refreshed yet: the cache agrees with the device. */
    lemma StartsAhead(start: nat, scratch: seq<Block>)
      requires Valid() && scratch != [] && (ticks <= TICK_LIMIT ==> FreshRun(start, scratch))
      ensures Ahead(start, scratch, 0)
    {
      if ticks <= TICK_LIMIT {
        assert Fresh(disk, start + (|scratch| - 1), scratch[|scratch| - 1]);
        assert Replaced(disk, start, scratch, 0) == disk;
      }
    }

    /** Copies the source bytes into the loaded blocks and refreshes the cached
        copies, before anything is written to the device. */
    method PatchAndUpdate(start: nat, off: nat, src: seq<Byte>, scratch0: seq<Block>) returns (scratch: seq<Block>)
      requires Valid() && off < 512 && src != [] && |scratch0| == (off + |src| + 511) / 512
      requires ticks <= TICK_LIMIT ==> FreshRun(start, scratch0)
      modifies this`cache, this`epoch, this`ticks
      ensures Spliced(scratch0, scratch, off, src, |scratch|) && Ahead(start, scratch, |scratch|)
      ensures old(ticks) <= ticks <= old(ticks) + |scratch|
    {
      scratch := scratch0;
      var copied := 0;
      StartsAhead(start, scratch);
      for i := 0 to |scratch0|
        invariant Spliced(scratch0, scratch, off, src, i) && Ahead(start, scratch, i)
        invariant old(ticks) <= ticks <= old(ticks) + i
        invariant copied == if i == 0 then 0 else Min(|src|, 512 * i - off)
      {
        scratch, copied := PatchOne(start, off, src, scratch0, scratch, i, copied);
      }
    }

    /** Copies what falls in block `i` and refreshes its cached copy. */
    method PatchOne(start: nat, off: nat, src: seq<Byte>, ghost scratch0: seq<Block>, scratch: seq<Block>, i: nat,
                    copied: nat)
      returns (scratch': seq<Block>, copied': nat)
      requires off < 512 && i < |scratch0| == |scratch| == (off + |src| + 511) / 512
      requires Spliced(scratch0, scratch, off, src, i) && Ahead(start, scratch, i)
      requires copied == if i == 0 then 0 else Min(|src|, 512 * i - off)
      modifies this`cache, this`epoch, this`ticks
      ensures Spliced(scratch0, scratch', off, src, i + 1) && Ahead(start, scratch', i + 1)
      ensures old(ticks) <= ticks <= old(ticks) + 1
      ensures |scratch'| == |scratch| && copied' == Min(|src|, 512 * (i + 1) - off)
    {
      var inBlock := if i == 0 then off else 0;
      var segment := Min(|src| - copied, 512 - inBlock);
      SplicedNext(scratch0, scratch, off, src, i, copied, inBlock, segment);
      var blk := Splice(scratch[i], inBlock, src[copied..copied + segment]);
      UpdateAhead(start, scratch, i, blk);
      return scratch[i := blk], copied + segment;
    }

    /** Writes part of at most sixteen blocks with one device transfer. */
    method WriteBatch(start: nat, off: nat, src: seq<Byte>) returns (ok: bool)
      requires Valid() && off < 512
      modifies this
      ensures Valid() && |disk| == |old(disk)| && (ok ==> ticks >= old(ticks)) && (old(writeError) ==> writeError)
      ensures ticks <= old(ticks) + 2 * ((off + |src| + 511) / 512) && (writeError ==> old(writeError) || !ok)
      ensures ok ==> 512 * start + off + |src| <= 512 * |disk|
      ensures ok && ticks <= TICK_LIMIT ==> FlatWritten(old(disk), disk, 512 * start + off, src)
      ensures KeptOutside(old(disk), disk, start, start + (off + |src| + 511) / 512)
      ensures reliable && src != [] && off + |src| <= 8192 && 512 * start + off + |src| <= 512 * |disk| ==> ok
    {
      var count := (off + |src| + 511) / 512;
      if src == [] || count > 16 {
        return false;
      }
      var scratch;
      ok, scratch := LoadForWrite(start, count);
      if !ok {
        return;
      }
      ghost var loaded := scratch;
      scratch := PatchAndUpdate(start, off, src, scratch);
      ok := DeviceWrite(start, scratch);
      if !ok {
        MarkWriteFailed();
        return;
      }
      assert disk == Replaced(old(disk), start, scratch, count);
      dirty := true;
      if ticks <= TICK_LIMIT {
        WrittenFlat(old(disk), disk, start, off, src, loaded, scratch);
      }
    }

    /** The state of a byte write that has got as far as `done` bytes. */
    ghost predicate Writing(disk0: seq<Block>, ticks0: nat, offset: nat, src: seq<Byte>, done: nat)
      reads this
    {
      && Valid() && done <= |src|
      && KeptOutside(disk0, disk, offset / 512, offset / 512 + Touched(offset, |src|))
      && (done > 0 ==> offset + done <= 512 * |disk|)
      && (0 < done < |src| ==> (offset + done) % 512 == 0)
      && ticks <= ticks0 + (if done == 0 then 0 else 2 * Touched(offset, done))
      && (ticks <= TICK_LIMIT ==> FlatWritten(disk0, disk, offset, src[..done]))
    }

    /** Writes up to eight blocks more. */
    method WriteMore(offset: nat, src: seq<Byte>, done: nat, ghost disk0: seq<Block>, ghost ticks0: nat)
      returns (ok: bool, len: nat)
      requires Writing(disk0, ticks0, offset, src, done) && done < |src|
      modifies this
      ensures 0 < len <= |src| - done && (writeError ==> old(writeError) || !ok) && (old(writeError) ==> writeError)
      ensures ok ==> Writing(disk0, ticks0, offset, src, done + len)
      ensures !ok ==> Valid() && KeptOutside(disk0, disk, offset / 512, offset / 512 + Touched(offset, |src|))
      ensures !ok ==> ticks <= ticks0 + 2 * Touched(offset, |src|)
      ensures reliable && offset + |src| <= 512 * |disk| ==> ok
    {
      var absolute := offset + done;
      len := Min(|src| - done, 4096 - absolute % 512);
      ghost var mid := disk;
      BatchSpan(offset, |src|, done, len);
      assert 512 * (absolute / 512) + absolute % 512 == absolute;
      ok := WriteBatch(absolute / 512, absolute % 512, src[done..done + len]);
      if ok && ticks <= TICK_LIMIT {
        FlatWrittenMore(disk0, mid, disk, offset, src, done, len);
      }
    }

    /** Writes bytes at any offset of the device, up to eight blocks at a time. */
    method WriteBytes(offset: nat, src: seq<Byte>) returns (ok: bool)
      requires Valid()
      modifies this
      ensures Valid() && |disk| == |old(disk)| && (old(writeError) ==> writeError)
      ensures ticks <= old(ticks) + 2 * Touched(offset, |src|) && (writeError ==> old(writeError) || !ok)
      ensures KeptOutside(old(disk), disk, offset / 512, offset / 512 + Touched(offset, |src|))
      ensures ok ==> offset + |src| <= 512 * |disk|
      ensures ok && ticks <= TICK_LIMIT ==> FlatWritten(old(disk), disk, offset, src)
      ensures reliable && src != [] && offset + |src| <= 512 * |disk| ==> ok
    {
      if src == [] {
        return false;
      }
      var done := 0;
      FlatWrittenNone(disk, offset);
      assert src[..0] == [];
      while done < |src|
        invariant Writing(old(disk), old(ticks), offset, src, done) && writeError == old(writeError)
      {
        var len;
        ok, len := WriteMore(offset, src, done, old(disk), old(ticks));
        if !ok {
          return;
        }
        done := done + len;
      }
      assert src[..done] == src;
      ok := true;
    }
  }

  /** Byte `k` of the run of blocks `before`, or of the source laid over it. */
  ghost function Overlaid(before: Block, off: nat, src: seq<Byte>, i: nat, k: nat): Byte
    requires k < 512
  {
    if off <= 512 * i + k < off + |src| then src[512 * i + k - off] else before[k]
  }

  /** The first `n` blocks of `after` are those of `before` overlaid with `src`; the
      others are unchanged. */
  ghost predicate Spliced(before: seq<Block>, after: seq<Block>, off: nat, src: seq<Byte>, n: nat) {
    && |after| == |before|
    && (forall i, k {:trigger Overlaid(before[i], off, src, i, k)} {:trigger after[i][k]} ::
          0 <= i < n && i < |before| && 0 <= k < 512 ==> after[i][k] == Overlaid(before[i], off, src, i, k))
    && forall i :: n <= i < |before| ==> after[i] == before[i]
  }

  lemma SplicedNext(before: seq<Block>, mid: seq<Block>, off: nat, src: seq<Byte>, i: nat, copied: nat, inBlock: nat,
                    segment: nat)
    requires Spliced(before, mid, off, src, i) && i < |before| && off < 512
    requires inBlock + segment <= 512 && copied + segment <= |src| && 512 * i + inBlock == off + copied
    requires inBlock == (if i == 0 then off else 0) && segment == Min(|src| - copied, 512 - inBlock)
    ensures Spliced(before, mid[i := Splice(mid[i], inBlock, src[copied..copied + segment])], off, src, i + 1)
  {
    var blk := Splice(mid[i], inBlock, src[copied..copied + segment]);
    forall k | 0 <= k < 512 ensures blk[k] == Overlaid(before[i], off, src, i, k) {
    }
  }

  /** The device with the first `n` of `blocks` in place from `start` on. */
  ghost function Replaced(disk: seq<Block>, start: nat, blocks: seq<Block>, n: nat): (r: seq<Block>)
    requires n <= |blocks| && start + n <= |disk|
    ensures |r| == |disk|
    ensures forall b :: 0 <= b < |disk| ==> r[b] == if start <= b < start + n then blocks[b - start] else disk[b]
  {
    disk[..start] + blocks[..n] + disk[start + n..]
  }

  lemma ReplacedNext(disk: seq<Block>, start: nat, blocks: seq<Block>, i: nat, blk: Block)
    requires i < |blocks| && start + |blocks| <= |disk|
    ensures SameBut(Replaced(disk, start, blocks, i), Replaced(disk, start, blocks[i := blk], i + 1), start + i)
    ensures Fresh(Replaced(disk, start, blocks[i := blk], i + 1), start + i, blk)
  {}

  /** The device's bytes with `src` written at `at`. */
  ghost predicate FlatWritten(disk: seq<Block>, disk': seq<Block>, at: nat, src: seq<Byte>) {
    && |disk'| == |disk|
    && forall k {:trigger FlatByte(disk', k)} :: 0 <= k < 512 * |disk| ==> ByteWritten(disk, disk', at, src, k)
  }

  ghost predicate ByteWritten(disk: seq<Block>, disk': seq<Block>, at: nat, src: seq<Byte>, k: nat) {
    FlatByte(disk', k) == if at <= k < at + |src| then src[k - at] else FlatByte(disk, k)
  }

  lemma WrittenByte(disk: seq<Block>, start: nat, off: nat, src: seq<Byte>, before: seq<Block>, after: seq<Block>,
                    b: nat, k: nat)
    requires start + |before| <= |disk| && start <= b < start + |before| && k < 512
    requires Fresh(disk, b, before[b - start]) && Spliced(before, after, off, src, |before|)
    ensures var at, here := 512 * start + off, 512 * b + k;
            after[b - start][k] == if at <= here < at + |src| then src[here - at] else disk[b][k]
  {
    assert after[b - start][k] == Overlaid(before[b - start], off, src, b - start, k);
  }

  lemma WrittenFlat(disk: seq<Block>, disk': seq<Block>, start: nat, off: nat, src: seq<Byte>, before: seq<Block>,
                    after: seq<Block>)
    requires off < 512 && src != [] && |before| == (off + |src| + 511) / 512 && start + |before| <= |disk|
    requires forall i :: 0 <= i < |before| ==> Fresh(disk, start + i, before[i])
    requires Spliced(before, after, off, src, |before|) && disk' == Replaced(disk, start, after, |after|)
    ensures FlatWritten(disk, disk', 512 * start + off, src)
  {
    var at := 512 * start + off;
    forall k | 0 <= k < 512 * |disk| ensures ByteWritten(disk, disk', at, src, k) {
      FlatWrittenAt(disk, disk', start, off, src, before, after, k);
    }
  }

  lemma FlatWrittenAt(disk: seq<Block>, disk': seq<Block>, start: nat, off: nat, src: seq<Byte>, before: seq<Block>,
                      after: seq<Block>, k: nat)
    requires off < 512 && src != [] && |before| == (off + |src| + 511) / 512 && start + |before| <= |disk|
    requires k < 512 * |disk|
    requires forall i :: 0 <= i < |before| ==> Fresh(disk, start + i, before[i])
    requires Spliced(before, after, off, src, |before|) && disk' == Replaced(disk, start, after, |after|)
    ensures ByteWritten(disk, disk', 512 * start + off, src, k)
  {
    var b := k / 512;
    assert k == 512 * b + k % 512;
    if start <= b < start + |before| {
      assert Fresh(disk, start + (b - start), before[b - start]);
      WrittenByte(disk, start, off, src, before, after, b, k % 512);
    }
  }

  lemma FlatWrittenNone(disk: seq<Block>, at: nat)
    ensures FlatWritten(disk, disk, at, [])
  {
    forall k | 0 <= k < 512 * |disk| ensures ByteWritten(disk, disk, at, [], k) {}
  }

  lemma FlatWrittenMore(d0: seq<Block>, d1: seq<Block>, d2: seq<Block>, offset: nat, src: seq<Byte>, done: nat,
                        len: nat)
    requires done + len <= |src|
    requires FlatWritten(d0, d1, offset, src[..done]) && FlatWritten(d1, d2, offset + done, src[done..done + len])
    ensures FlatWritten(d0, d2, offset, src[..done + len])
  {
    var all := src[..done + len];
    forall k | 0 <= k < 512 * |d0| ensures ByteWritten(d0, d2, offset, all, k) {
      assert ByteWritten(d0, d1, offset, src[..done], k) && ByteWritten(d1, d2, offset + done, src[done..done + len],
        k);
    }
  }

  // ----- runs -----

  datatype Op =
    | ReadOne(block: nat)
    | ReadRun(start: nat, count: nat)
    | ReadAt(offset: nat, size: nat)
    | WriteOne(block: nat, data: Block)
    | WriteAt(offset: nat, src: seq<Byte>)
    | FlushAll

  datatype Result = Failed | Done | Blocks(blocks: seq<Block>) | Bytes(bytes: seq<Byte>)

  ghost predicate HoldsBlocks(disk: seq<Block>, start: nat, blocks: seq<Block>) {
    forall i :: 0 <= i < |blocks| ==> Fresh(disk, start + i, blocks[i])
  }

  ghost predicate HoldsBytes(disk: seq<Block>, offset: nat, bytes: seq<Byte>) {
    forall i {:trigger bytes[i]} :: 0 <= i < |bytes| ==> bytes[i] == FlatByte(disk, offset + i)
  }

  /** What the device alone would allow: reads deliver what it holds and change
      nothing, successful writes store the data and nothing else, failed ones touch
      no block outside the request.  A device that never fails serves every request
      in range, as long as no write or flush has failed before. */
  ghost predicate RawStep(d: seq<Block>, op: Op, r: Result, d': seq<Block>, reliable: bool, clean: bool) {
    match op
    case ReadOne(b) =>
      && d' == d && (r.Failed? || (r.Blocks? && |r.blocks| == 1 && HoldsBlocks(d, b, r.blocks)))
      && (reliable && b < |d| ==> !r.Failed?)
    case ReadRun(start, n) =>
      && d' == d && (r.Failed? || (r.Blocks? && |r.blocks| == n && HoldsBlocks(d, start, r.blocks)))
      && (reliable && n > 0 && start + n <= |d| ==> !r.Failed?)
    case ReadAt(offset, n) =>
      && d' == d && (r.Failed? || (r.Bytes? && |r.bytes| == n && HoldsBytes(d, offset, r.bytes)))
      && (r.Failed? || n == 0 || offset + n <= 512 * |d|)
      && (reliable && offset + n <= 512 * |d| ==> !r.Failed?)
    case WriteOne(b, data) =>
      && KeptOutside(d, d', b, b + 1) && (r.Failed? || (r.Done? && b < |d| && d' == d[b := data]))
      && (reliable && clean && b < |d| ==> r.Done?)
    case WriteAt(offset, src) =>
      && KeptOutside(d, d', offset / 512, offset / 512 + Touched(offset, |src|))
      && (r.Failed? || (r.Done? && offset + |src| <= 512 * |d| && FlatWritten(d, d', offset, src)))
      && (reliable && src != [] && offset + |src| <= 512 * |d| ==> r.Done?)
    case FlushAll =>
      && d' == d && (r.Failed? || r.Done?) && (reliable && clean ==> r.Done?)
  }

  ghost predicate Writes(op: Op) { op.WriteOne? || op.WriteAt? || op.FlushAll? }

  /** No write or flush among the first `n` operations failed. */
  ghost predicate Clean(ops: seq<Op>, results: seq<Result>, n: nat) {
    n <= |ops| && n <= |results| && forall j {:trigger results[j]} :: 0 <= j < n && Writes(ops[j]) ==>
      !results[j].Failed?
  }

  /** The most ticks an operation takes: one for each cached copy it touches. */
  ghost function Cost(op: Op): nat {
    match op
    case ReadOne(_) => 1
    case ReadRun(_, n) => n
    case ReadAt(offset, n) => 16 * Touched(offset, n)
    case WriteOne(_, _) => 1
    case WriteAt(offset, src) => 2 * Touched(offset, |src|)
    case FlushAll => 0
  }

  ghost function TotalCost(ops: seq<Op>, n: nat): nat
    requires n <= |ops|
  {
    if n == 0 then 0 else TotalCost(ops, n - 1) + Cost(ops[n - 1])
  }

  /** One operation through the cache. */
  method Apply(vol: CachedVolume, op: Op) returns (r: Result)
    requires vol.Valid()
    modifies vol
    ensures vol.Valid() && vol.ticks <= old(vol.ticks) + Cost(op)
    ensures vol.ticks <= TICK_LIMIT ==> RawStep(old(vol.disk), op, r, vol.disk, vol.reliable, !old(vol.writeError))
    ensures vol.writeError ==> old(vol.writeError) || (Writes(op) && r.Failed?)
    ensures |vol.disk| == |old(vol.disk)|
  {
    var ok;
    match op
    case ReadOne(b) =>
      var blk;
      ok, blk := vol.ReadBlock(b);
      r := if ok then Blocks([blk]) else Failed;
    case ReadRun(start, n) =>
      var blocks;
      ok, blocks := vol.ReadBlocks(start, n);
      r := if ok then Blocks(blocks) else Failed;
    case ReadAt(offset, n) =>
      var bytes;
      ok, bytes := vol.ReadBytes(offset, n);
      r := if ok then Bytes(bytes) else Failed;
    case WriteOne(b, data) =>
      ok := vol.WriteBlock(b, data);
      r := if ok then Done else Failed;
    case WriteAt(offset, src) =>
      ok := vol.WriteBytes(offset, src);
      r := if ok then Done else Failed;
    case FlushAll =>
      ok := vol.Flush();
      r := if ok then Done else Failed;
  }

  /** Step `i` of a run is one of the device, if the clock cannot have wrapped. */
  ghost predicate RawAt(ops: seq<Op>, results: seq<Result>, trace: seq<seq<Block>>, reliable: bool, i: nat) {
    && i < |ops| && i < |results| && i + 1 < |trace|
    && (TotalCost(ops, i + 1) <= TICK_LIMIT ==>
          RawStep(trace[i], ops[i], results[i], trace[i + 1], reliable, Clean(ops, results, i)))
  }

  lemma RawAtKept(ops: seq<Op>, results: seq<Result>, trace: seq<seq<Block>>, reliable: bool, i: nat, r: Result,
                  d: seq<Block>)
    requires RawAt(ops, results, trace, reliable, i)
    ensures RawAt(ops, results + [r], trace + [d], reliable, i)
  {
    var results' := results + [r];
    assert forall j {:trigger results[j]} {:trigger results'[j]} :: 0 <= j < |results| ==> results'[j] == results[j];
    assert Clean(ops, results', i) == Clean(ops, results, i);
  }

  /** Every run through the cache is a run of the device without it, for as long as
      the operations so far cannot have brought the clock to its limit. */
  method RunAll(ops: seq<Op>, disk: seq<Block>, reliable: bool)
    returns (results: seq<Result>, ghost trace: seq<seq<Block>>)
    ensures |results| == |ops| && |trace| == |ops| + 1 && trace[0] == disk
    ensures forall i :: 0 <= i < |ops| ==> RawAt(ops, results, trace, reliable, i)
  {
    var vol := new CachedVolume(disk, reliable);
    results, trace := [], [disk];
    for n := 0 to |ops|
      invariant vol.Valid() && fresh(vol) && vol.reliable == reliable && vol.ticks <= TotalCost(ops, n)
      invariant |results| == n && |trace| == n + 1 && trace[0] == disk && trace[n] == vol.disk
      invariant Clean(ops, results, n) ==> !vol.writeError
      invariant forall i :: 0 <= i < n ==> RawAt(ops, results, trace, reliable, i)
    {
      var r := Apply(vol, ops[n]);
      ghost var results0, trace0 := results, trace;
      results, trace := results + [r], trace + [vol.disk];
      forall i | 0 <= i < n ensures RawAt(ops, results, trace, reliable, i) {
        RawAtKept(ops, results0, trace0, reliable, i, r, vol.disk);
      }
      CleanSnoc(ops, results0, r);
      assert RawAt(ops, results, trace, reliable, n);
    }
  }

  lemma CleanSnoc(ops: seq<Op>, results: seq<Result>, r: Result)
    requires |results| < |ops|
    ensures Clean(ops, results + [r], |results|) == Clean(ops, results, |results|)
    ensures Clean(ops, results + [r], |results| + 1) ==> Clean(ops, results, |results|)
    ensures Clean(ops, results + [r], |results| + 1) ==> (Writes(ops[|results|]) ==> !r.Failed?)
  {
    var n, results' := |results|, results + [r];
    assert results'[n] == r;
    assert forall j {:trigger results'[j]} :: 0 <= j < n ==> results'[j] == results[j];
    if Clean(ops, results', n) {
      forall j | 0 <= j < n && Writes(ops[j]) ensures !results[j].Failed? { assert results'[j] == results[j]; }
    }
  }

  // ----- clients -----

  /** A request within a device of `size` blocks. */
  ghost predicate InRange(op: Op, size: nat) {
    match op
    case ReadOne(b) => b < size
    case ReadRun(start, n) => n > 0 && start + n <= size
    case ReadAt(offset, n) => offset + n <= 512 * size
    case WriteOne(b, _) => b < size
    case WriteAt(offset, src) => src != [] && offset + |src| <= 512 * size
    case FlushAll => true
  }

  /** Block `b` of a device with `src` written over its bytes from `at` on. */
  ghost function BlockWith(blk: Block, b: nat, at: nat, src: seq<Byte>): (r: Block)
    ensures forall k :: 0 <= k < 512 ==>
      r[k] == if at <= 512 * b + k < at + |src| then src[512 * b + k - at] else blk[k]
  {
    var byte: nat -> Byte := (k: nat) =>
      if at <= 512 * b + k < at + |src| then src[512 * b + k - at] else if k < 512 then blk[k] else 0;
    seq(512, byte)
  }

  /** The device with `src` written over its bytes from `at` on. */
  ghost function DiskWith(d: seq<Block>, at: nat, src: seq<Byte>): (r: seq<Block>)
    ensures |r| == |d|
    ensures forall b, k :: 0 <= b < |d| && 0 <= k < 512 ==>
      r[b][k] == if at <= 512 * b + k < at + |src| then src[512 * b + k - at] else d[b][k]
  {
    seq(|d|, b requires 0 <= b < |d| => BlockWith(d[b], b, at, src))
  }

  ghost function FlatBytes(d: seq<Block>, offset: nat, n: nat): (r: seq<Byte>)
    ensures |r| == n && HoldsBytes(d, offset, r)
  {
    if n == 0 then [] else FlatBytes(d, offset, n - 1) + [FlatByte(d, offset + n - 1)]
  }

  /** What a device that never fails answers, and holds afterwards. */
  ghost function RawResult(d: seq<Block>, op: Op): Result
    requires InRange(op, |d|)
  {
    match op
    case ReadOne(b) => Blocks([d[b]])
    case ReadRun(start, n) => Blocks(d[start..start + n])
    case ReadAt(offset, n) => Bytes(FlatBytes(d, offset, n))
    case _ => Done
  }

  ghost function RawDisk(d: seq<Block>, op: Op): (d': seq<Block>)
    requires InRange(op, |d|)
    ensures |d'| == |d|
  {
    match op
    case WriteOne(b, data) => d[b := data]
    case WriteAt(offset, src) => DiskWith(d, offset, src)
    case _ => d
  }

  lemma FlatWrittenIs(d: seq<Block>, d': seq<Block>, at: nat, src: seq<Byte>)
    requires FlatWritten(d, d', at, src)
    ensures d' == DiskWith(d, at, src)
  {
    var r := DiskWith(d, at, src);
    forall b | 0 <= b < |d| ensures d'[b] == r[b] {
      forall k | 0 <= k < 512 ensures d'[b][k] == r[b][k] {
        assert (512 * b + k) / 512 == b && (512 * b + k) % 512 == k;
        assert ByteWritten(d, d', at, src, 512 * b + k);
      }
    }
  }

  lemma RawIsExact(d: seq<Block>, op: Op, r: Result, d': seq<Block>)
    requires RawStep(d, op, r, d', true, true) && InRange(op, |d|)
    ensures r == RawResult(d, op) && d' == RawDisk(d, op) && !r.Failed?
  {
    match op
    case ReadOne(b) =>
      assert Fresh(d, b + 0, r.blocks[0]);
    case ReadRun(start, n) =>
      assert forall i :: 0 <= i < n ==> Fresh(d, start + i, r.blocks[i]);
      assert r.blocks == d[start..start + n];
    case ReadAt(offset, n) =>
      assert r.bytes == RawResult(d, op).bytes;
    case WriteOne(b, data) =>
    case WriteAt(offset, src) =>
      FlatWrittenIs(d, d', offset, src);
    case FlushAll =>
  }

  datatype Raw = Raw(disk: seq<Block>, results: seq<Result>, cost: nat)

  /** `n` operations of a client that chooses each from the answers so far, on a
      device without a cache. */
  ghost function RawRun(client: seq<Result> -> Op, disk: seq<Block>, n: nat): (s: Raw)
    requires forall h :: InRange(client(h), |disk|)
    ensures |s.disk| == |disk| && |s.results| == n
  {
    if n == 0 then Raw(disk, [], 0)
    else
      var s := RawRun(client, disk, n - 1);
      var op := client(s.results);
      Raw(RawDisk(s.disk, op), s.results + [RawResult(s.disk, op)], s.cost + Cost(op))
  }

  lemma {:induction false} RawCostGrows(client: seq<Result> -> Op, disk: seq<Block>, m: nat, n: nat)
    requires m <= n && forall h :: InRange(client(h), |disk|)
    ensures RawRun(client, disk, m).cost <= RawRun(client, disk, n).cost
  {
    if m < n {
      RawCostGrows(client, disk, m, n - 1);
    }
  }

  /** No client can tell the cache from the device: whatever it asks next, depending
      on all it has been told, it is told what the device alone would say, and the
      device ends up with the same contents. */
  method RunClient(client: seq<Result> -> Op, n: nat, disk: seq<Block>)
    returns (results: seq<Result>, ghost after: seq<Block>)
    requires forall h :: InRange(client(h), |disk|)
    requires RawRun(client, disk, n).cost <= TICK_LIMIT
    ensures results == RawRun(client, disk, n).results && after == RawRun(client, disk, n).disk
  {
    var vol := new CachedVolume(disk, true);
    results := [];
    for m := 0 to n
      invariant vol.Valid() && fresh(vol) && vol.reliable && !vol.writeError
      invariant var s := RawRun(client, disk, m); results == s.results && vol.disk == s.disk && vol.ticks <= s.cost
    {
      RawCostGrows(client, disk, m + 1, n);
      ghost var d := vol.disk;
      var op := client(results);
      var r := Apply(vol, op);
      RawIsExact(d, op, r, vol.disk);
      results := results + [r];
    }
    after := vol.disk;
  }
}
