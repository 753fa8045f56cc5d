/** The asynchronous request queue of the block layer (block/blockdev.c): adjacent
    requests are merged, and draining the merged queue has the effect of running
    every submission once, in order. */
module BlockQueue {
  import opened Bitmap

  const DEPTH := 8
  const WORD32 := 0x1_0000_0000
  const WORD64 := 0x1_0000_0000_0000_0000

  datatype Device = Device(id: nat, blockSize: nat)

  datatype Kind = Read | Write | Other

  /** A request; callback and context 0 stand for null pointers. */
  datatype Request = Request(dev: Device, kind: Kind, lba: nat, count: nat, buffer: nat, callback: nat, context: nat,
                             valid: bool)

  // ----- what requests mean -----

  /** Sectors by device and address, memory by address, and the callbacks made so
      far with their contexts. */
  datatype World = World(disk: map<(Device, nat), seq<Byte>>, mem: map<nat, Byte>, calls: seq<(nat, nat)>)

  function Peek(mem: map<nat, Byte>, at: nat): Byte { if at in mem then mem[at] else 0 }

  function Load(mem: map<nat, Byte>, at: nat, n: nat): seq<Byte> {
    seq<Byte>(n, i requires 0 <= i => Peek(mem, (at + i) % WORD64))
  }

  function Store(mem: map<nat, Byte>, at: nat, data: seq<Byte>): map<nat, Byte>
    decreases |data|
  {
    if data == [] then mem else Store(mem[at := data[0]], (at + 1) % WORD64, data[1..])
  }

  function Sector(w: World, dev: Device, lba: nat): seq<Byte> {
    if (dev, lba) in w.disk then w.disk[(dev, lba)] else seq<Byte>(dev.blockSize, _ => 0)
  }

  /** The bytes of `n` sectors, counted up one by one. */
  function Span(n: nat, size: nat): nat { if n == 0 then 0 else Span(n - 1, size) + size }

  lemma {:induction false} SpanIs(n: nat, size: nat)
    ensures Span(n, size) == n * size
  {
    if n > 0 {
      SpanIs(n - 1, size);
      assert n * size == (n - 1) * size + size;
    }
  }

  /** Transfers sector `k` of a request. */
  function Transfer(r: Request, k: nat, w: World): World {
    var lba, at := (r.lba + k) % WORD64, (r.buffer + Span(k, r.dev.blockSize)) % WORD64;
    match r.kind
    case Read => w.(mem := Store(w.mem, at, Sector(w, r.dev, lba)))
    case Write => w.(disk := w.disk[(r.dev, lba) := Load(w.mem, at, r.dev.blockSize)])
    case Other => w
  }

  /** Transfers the first `n` sectors of a request, in order. */
  ghost function Transfers(r: Request, n: nat, w: World): World {
    if n == 0 then w else Transfer(r, n - 1, Transfers(r, n - 1, w))
  }

  /** Runs a request and then calls its callback, if any. */
  ghost function Exec(r: Request, w: World): World {
    if !r.valid then w
    else
      var w' := Transfers(r, r.count, w);
      if r.callback == 0 then w' else w'.(calls := w'.calls + [(r.callback, r.context)])
  }

  ghost function ExecAll(rs: seq<Request>, w: World): World
    decreases |rs|
  {
    if rs == [] then w else ExecAll(rs[1..], Exec(rs[0], w))
  }

  lemma {:induction false} ExecAllConcat(a: seq<Request>, b: seq<Request>, w: World)
    ensures ExecAll(a + b, w) == ExecAll(b, ExecAll(a, w))
    decreases |a|
  {
    if a == [] {
      assert a + b == b;
    } else {
      assert (a + b)[1..] == a[1..] + b;
      ExecAllConcat(a[1..], b, Exec(a[0], w));
    }
  }

  /** The same requests, in meaning. */
  ghost predicate Same(a: seq<Request>, b: seq<Request>) {
    forall w :: SameFrom(a, b, w)
  }

  ghost predicate SameFrom(a: seq<Request>, b: seq<Request>, w: World) { ExecAll(a, w) == ExecAll(b, w) }

  lemma SameAppend(a: seq<Request>, b: seq<Request>, c: seq<Request>)
    requires Same(a, b)
    ensures Same(a + c, b + c)
  {
    forall w ensures SameFrom(a + c, b + c, w) {
      assert SameFrom(a, b, w);
      ExecAllConcat(a, c, w);
      ExecAllConcat(b, c, w);
    }
  }

  // ----- merging -----

  /** Whether `right` continues `left`, on disk and in memory. */
  predicate CanMerge(left: Request, right: Request) {
    && left.valid && right.valid && left.dev == right.dev && left.kind == right.kind
    && left.callback == 0 && right.callback == 0 && left.context == 0 && right.context == 0
    && left.count != 0 && right.count != 0
    && EndLba(left) >= left.lba && EndLba(left) == right.lba
    && !left.kind.Other? && left.buffer != 0 && right.buffer != 0
    && EndAddress(left) == right.buffer
  }

  /** Where a request ends, on disk and in memory. */
  function EndLba(r: Request): nat { (r.lba + r.count) % WORD64 }

  function EndAddress(r: Request): nat { (r.buffer + Span(r.count, r.dev.blockSize)) % WORD64 }

  lemma ModAdd(a: nat, b: nat)
    ensures (a % WORD64 + b) % WORD64 == (a + b) % WORD64
  {
    var m := WORD64;
    assert a == m * (a / m) + a % m;
    ModShift(a % m + b, a / m);
  }

  lemma {:induction false} ModShift(x: nat, q: nat)
    ensures (x + WORD64 * q) % WORD64 == x % WORD64
  {
    if q > 0 {
      ModShift(x, q - 1);
      var y := x + WORD64 * (q - 1);
      assert x + WORD64 * q == y + WORD64;
    }
  }

  /** Sector `k` of the second request is sector `left.count + k` of the merged one. */
  lemma MergedSector(left: Request, right: Request, merged: Request, k: nat, w: World)
    requires CanMerge(left, right) && merged.dev == left.dev && merged.kind == left.kind
    requires merged.lba == left.lba && merged.buffer == left.buffer
    ensures Transfer(merged, left.count + k, w) == Transfer(right, k, w)
  {
    ModAdd(left.lba + left.count, k);
    AddressShift(left.buffer, left.count, k, left.dev.blockSize);
  }

  lemma AddressShift(at: nat, n: nat, k: nat, size: nat)
    ensures ((at + Span(n, size)) % WORD64 + Span(k, size)) % WORD64 == (at + Span(n + k, size)) % WORD64
  {
    SpanAdd(n, k, size);
    ModAdd(at + Span(n, size), Span(k, size));
  }

  lemma {:induction false} SpanAdd(n: nat, k: nat, size: nat)
    ensures Span(n + k, size) == Span(n, size) + Span(k, size)
  {
    if k > 0 {
      SpanAdd(n, k - 1, size);
    }
  }

  /** `merged` starts like `left` and goes on like `right`. */
  ghost predicate Continues(left: Request, right: Request, merged: Request) {
    && merged == left.(count := merged.count)
    && left.valid && right.valid && left.callback == 0 && right.callback == 0
    && forall k: nat, w {:trigger Transfer(right, k, w)} :: Transfer(merged, left.count + k, w) == Transfer(right, k, w)
  }

  lemma MergeContinues(left: Request, right: Request)
    requires CanMerge(left, right)
    ensures Continues(left, right, Merge(left, right))
  {
    forall k: nat, w ensures Transfer(Merge(left, right), left.count + k, w) == Transfer(right, k, w) {
      MergedSector(left, right, Merge(left, right), k, w);
    }
  }

  lemma {:induction false} MergedTransfers(left: Request, right: Request, merged: Request, n: nat, w: World)
    requires Continues(left, right, merged)
    ensures Transfers(merged, left.count + n, w) == Transfers(right, n, Transfers(merged, left.count, w))
  {
    if n > 0 {
      MergedTransfers(left, right, merged, n - 1, w);
      var before := Transfers(right, n - 1, Transfers(merged, left.count, w));
      assert Transfer(right, n - 1, before) == Transfer(merged, left.count + (n - 1), before);
    }
  }

  lemma {:induction false} SameTransfers(a: Request, b: Request, n: nat, w: World)
    requires a.dev == b.dev && a.kind == b.kind && a.lba == b.lba && a.buffer == b.buffer
    ensures Transfers(a, n, w) == Transfers(b, n, w)
  {
    if n > 0 {
      SameTransfers(a, b, n - 1, w);
      SameTransfer(a, b, n - 1, Transfers(a, n - 1, w));
    }
  }

  lemma SameTransfer(a: Request, b: Request, k: nat, w: World)
    requires a.dev == b.dev && a.kind == b.kind && a.lba == b.lba && a.buffer == b.buffer
    ensures Transfer(a, k, w) == Transfer(b, k, w)
  {}

  lemma MergedExec(left: Request, right: Request, merged: Request, w: World)
    requires Continues(left, right, merged) && merged.count == left.count + right.count
    ensures Exec(merged, w) == Exec(right, Exec(left, w))
  {
    MergedTransfers(left, right, merged, right.count, w);
    SameTransfers(left, merged, left.count, w);
  }

  lemma ExecOne(r: Request, w: World)
    ensures ExecAll([r], w) == Exec(r, w)
  {
    assert [r][1..] == [];
    assert ExecAll([], Exec(r, w)) == Exec(r, w);
  }

  /** A merged request does what the two did, provided the counts do not overflow. */
  lemma MergeKeepsMeaning(left: Request, right: Request)
    requires CanMerge(left, right) && left.count + right.count < WORD32
    ensures Same([Merge(left, right)], [left] + [right])
  {
    MergeContinues(left, right);
    forall w ensures SameFrom([Merge(left, right)], [left] + [right], w) {
      MergedExec(left, right, Merge(left, right), w);
      ExecTwo(left, right, w);
      ExecOne(Merge(left, right), w);
    }
  }

  lemma ExecTwo(left: Request, right: Request, w: World)
    ensures ExecAll([left] + [right], w) == Exec(right, Exec(left, w))
  {
    ExecAllConcat([left], [right], w);
    ExecOne(left, w);
    ExecOne(right, Exec(left, w));
  }

  /** The 32-bit count of the merged request wraps. */
  function Merge(left: Request, right: Request): Request {
    left.(count := (left.count + right.count) % WORD32)
  }

  // ----- merging more than a count can hold -----

  /** A write request creates no sector it does not transfer. */
  lemma {:induction false} OtherSectorsAbsent(r: Request, n: nat, w: World, lba: nat)
    requires r.kind.Write? && (r.dev, lba) !in w.disk
    requires forall k: nat {:trigger Place(r, k)} :: k < n ==> Place(r, k) != lba
    ensures (r.dev, lba) !in Transfers(r, n, w).disk
  {
    if n > 0 {
      OtherSectorsAbsent(r, n - 1, w, lba);
      assert Place(r, n - 1) != lba;
    }
  }

  /** Where sector `k` of a request lies. */
  ghost function Place(r: Request, k: nat): nat { (r.lba + k) % WORD64 }

  lemma PlacesDiffer(r: Request, j: nat, k: nat)
    requires j < k < WORD64
    ensures Place(r, j) != Place(r, k)
  {}

  ghost predicate Blank(mem: map<nat, Byte>) { forall a :: Peek(mem, a) == 0 }

  lemma {:induction false} StoreZeros(mem: map<nat, Byte>, at: nat, data: seq<Byte>)
    requires Blank(mem) && forall i :: 0 <= i < |data| ==> data[i] == 0
    ensures Blank(Store(mem, at, data))
    decreases |data|
  {
    if data != [] {
      var first := mem[at := data[0]];
      forall a ensures Peek(first, a) == 0 {
        assert Peek(mem, a) == 0;
      }
      StoreZeros(first, (at + 1) % WORD64, data[1..]);
    }
  }

  lemma {:induction false} StoreOnes(mem: map<nat, Byte>, at: nat, data: seq<Byte>, a: nat)
    requires forall i :: 0 <= i < |data| ==> data[i] == 1
    requires Peek(mem, a) == 1 || (a == at && data != [])
    ensures Peek(Store(mem, at, data), a) == 1
    decreases |data|
  {
    if data != [] {
      StoreOnes(mem[at := data[0]], (at + 1) % WORD64, data[1..], a);
    }
  }

  lemma {:induction false} ReadsKeepDisk(r: Request, n: nat, w: World)
    requires r.kind.Read?
    ensures Transfers(r, n, w).disk == w.disk
  {
    if n > 0 {
      ReadsKeepDisk(r, n - 1, w);
    }
  }

  /** A disk where sector `lba` holds ones and every other sector zeros. */
  ghost function Marked(dev: Device, lba: nat): World {
    World(map[(dev, lba) := seq<Byte>(dev.blockSize, _ => 1)], map[], [])
  }

  /** A read request that does not reach the marked sector sees only zeros. */
  lemma {:induction false} ReadsBlank(r: Request, n: nat, lba: nat)
    requires r.kind.Read?
    requires forall k: nat {:trigger Place(r, k)} :: k < n ==> Place(r, k) != lba
    ensures Blank(Transfers(r, n, Marked(r.dev, lba)).mem)
  {
    var w := Marked(r.dev, lba);
    if n > 0 {
      ReadsBlank(r, n - 1, lba);
      ReadsKeepDisk(r, n - 1, w);
      var before := Transfers(r, n - 1, w);
      assert Place(r, n - 1) != lba;
      StoreZeros(before.mem, (r.buffer + Span(n - 1, r.dev.blockSize)) % WORD64,
                 Sector(before, r.dev, Place(r, n - 1)));
    }
  }

  /** The last sector of the second request, which a merged request whose count
      has wrapped never reaches. */
  lemma NeverReached(left: Request, right: Request)
    requires CanMerge(left, right) && left.count < WORD32 && right.count < WORD32 && left.count + right.count >= WORD32
    ensures forall k: nat {:trigger Place(left, k)} :: k < (left.count + right.count) % WORD32 ==>
      Place(left, k) != Place(right, right.count - 1)
  {
    ModAdd(left.lba + left.count, right.count - 1);
    forall k: nat | k < (left.count + right.count) % WORD32 ensures Place(left, k) != Place(right, right.count - 1) {
      PlacesDiffer(left, k, left.count + right.count - 1);
    }
  }

  lemma OverflowLosesWrite(left: Request, right: Request)
    requires CanMerge(left, right) && left.count < WORD32 && right.count < WORD32 && left.count + right.count >= WORD32
    requires left.kind.Write?
    ensures exists w :: Exec(Merge(left, right), w) != Exec(right, Exec(left, w))
  {
    var merged, w, lba := Merge(left, right), World(map[], map[], []), Place(right, right.count - 1);
    NeverReached(left, right);
    SameTransfers(merged, left, merged.count, w);
    OtherSectorsAbsent(left, merged.count, w, lba);
    assert (right.dev, lba) in Exec(right, Exec(left, w)).disk;
    assert Exec(merged, w) != Exec(right, Exec(left, w));
  }

  /** The last sector a read request transfers, if it holds ones, ends in memory. */
  lemma LastReadOnes(r: Request, w: World)
    requires r.kind.Read? && r.valid && r.callback == 0 && r.count > 0 && r.dev.blockSize > 0
    requires Sector(w, r.dev, Place(r, r.count - 1)) == seq<Byte>(r.dev.blockSize, _ => 1)
    ensures !Blank(Exec(r, w).mem)
  {
    var n := r.count - 1;
    var last := Transfers(r, n, w);
    var at := (r.buffer + Span(n, r.dev.blockSize)) % WORD64;
    ReadsKeepDisk(r, n, w);
    StoreOnes(last.mem, at, Sector(last, r.dev, Place(r, n)), at);
    assert Peek(Exec(r, w).mem, at) == 1;
  }

  lemma OverflowLosesRead(left: Request, right: Request)
    requires CanMerge(left, right) && left.count < WORD32 && right.count < WORD32 && left.count + right.count >= WORD32
    requires left.kind.Read? && left.dev.blockSize > 0
    ensures exists w :: Exec(Merge(left, right), w) != Exec(right, Exec(left, w))
  {
    var merged, lba := Merge(left, right), Place(right, right.count - 1);
    var w := Marked(left.dev, lba);
    NeverReached(left, right);
    SameTransfers(merged, left, merged.count, w);
    ReadsBlank(left, merged.count, lba);
    ReadsKeepDisk(left, left.count, w);
    LastReadOnes(right, Exec(left, w));
    assert Exec(merged, w) != Exec(right, Exec(left, w));
  }

  /** Merging is right exactly when the sum of the counts fits in 32 bits. */
  lemma MergeExact(left: Request, right: Request)
    requires CanMerge(left, right) && left.count < WORD32 && right.count < WORD32 && left.dev.blockSize > 0
    ensures Same([Merge(left, right)], [left] + [right]) <==> left.count + right.count < WORD32
  {
    if left.count + right.count < WORD32 {
      MergeKeepsMeaning(left, right);
    } else {
      if left.kind.Write? {
        OverflowLosesWrite(left, right);
      } else {
        OverflowLosesRead(left, right);
      }
      var w :| Exec(Merge(left, right), w) != Exec(right, Exec(left, w));
      ExecTwo(left, right, w);
      ExecOne(Merge(left, right), w);
      assert !SameFrom([Merge(left, right)], [left] + [right], w);
    }
  }

  // ----- the queue -----

  lemma SameTail(front: seq<Request>, a: seq<Request>, b: seq<Request>)
    requires Same(a, b)
    ensures Same(front + a, front + b)
  {
    forall w ensures SameFrom(front + a, front + b, w) {
      assert SameFrom(a, b, ExecAll(front, w));
      ExecAllConcat(front, a, w);
      ExecAllConcat(front, b, w);
    }
  }

  lemma SameTwice(a: seq<Request>, b: seq<Request>, c: seq<Request>)
    requires Same(a, b) && Same(b, c)
    ensures Same(a, c)
  {
    forall w ensures SameFrom(a, c, w) {
      assert SameFrom(a, b, w) && SameFrom(b, c, w);
    }
  }

  lemma MergedQueue(queue: seq<Request>, pending: seq<Request>, r: Request)
    requires queue != [] && Same(queue, pending) && CanMerge(queue[|queue| - 1], r)
    requires queue[|queue| - 1].count + r.count < WORD32
    ensures Same(queue[|queue| - 1 := Merge(queue[|queue| - 1], r)], pending + [r])
  {
    var front, last := queue[..|queue| - 1], queue[|queue| - 1];
    MergeKeepsMeaning(last, r);
    SameTail(front, [Merge(last, r)], [last] + [r]);
    assert queue[|queue| - 1 := Merge(last, r)] == front + [Merge(last, r)];
    assert front + ([last] + [r]) == queue + [r];
    SameAppend(queue, pending, [r]);
    SameTwice(front + [Merge(last, r)], queue + [r], pending + [r]);
  }

  // ----- runs of requests that continue one another -----

  ghost function Total(rs: seq<Request>): nat { if rs == [] then 0 else Total(rs[..|rs| - 1]) + rs[|rs| - 1].count }

  lemma TotalSnoc(rs: seq<Request>, r: Request)
    ensures Total(rs + [r]) == Total(rs) + r.count
  {
    assert (rs + [r])[..|rs|] == rs;
  }

  /** The run that ends with `r`, submitted after the run `ws`. */
  ghost function Grow(ws: seq<Request>, r: Request): seq<Request> {
    if ws != [] && CanMerge(ws[|ws| - 1], r) then ws + [r] else [r]
  }

  /** A merged request and the last of the requests it stands for can be continued by
      the same requests. */
  ghost predicate StandsFor(m: Request, last: Request) {
    && m.valid == last.valid && m.dev == last.dev && m.kind == last.kind
    && (m.callback == 0 <==> last.callback == 0) && (m.context == 0 <==> last.context == 0)
    && (m.count == 0 <==> last.count == 0) && (m.buffer == 0 <==> last.buffer == 0)
    && EndLba(m) == EndLba(last) && EndAddress(m) == EndAddress(last)
    && (EndLba(m) >= m.lba <==> EndLba(last) >= last.lba)
  }

  lemma SameContinued(m: Request, last: Request, r: Request)
    requires StandsFor(m, last)
    ensures CanMerge(m, r) <==> CanMerge(last, r)
  {}

  /** The merged request then stands for the one just merged. */
  lemma StandsForNext(m: Request, r: Request)
    requires CanMerge(m, r) && m.count + r.count < WORD32
    ensures StandsFor(Merge(m, r), r)
  {
    var merged := Merge(m, r);
    assert merged == m.(count := m.count + r.count);
    MergedEnds(m, r.count, merged);
    WrapTogether(m.lba, m.count, r.count);
  }

  lemma MergedEnds(m: Request, n: nat, merged: Request)
    requires merged == m.(count := m.count + n)
    ensures EndLba(merged) == (EndLba(m) + n) % WORD64
    ensures EndAddress(merged) == (EndAddress(m) + Span(n, m.dev.blockSize)) % WORD64
  {
    ModAdd(m.lba + m.count, n);
    AddressShift(m.buffer, m.count, n, m.dev.blockSize);
  }

  /** Going on from where the first part ends, the second wraps around exactly when
      the whole does. */
  lemma WrapTogether(lba: nat, n: nat, k: nat)
    requires n + k < WORD32 && (lba + n) % WORD64 >= lba
    ensures var mid := (lba + n) % WORD64;
            (lba + n + k) % WORD64 >= lba <==> (mid + k) % WORD64 >= mid
  {
    assert lba < WORD64;
    assert (lba + n) % WORD64 == lba + n;
  }

  lemma GrowTotal(ws: seq<Request>, r: Request)
    ensures Total(Grow(ws, r)) == r.count + if ws != [] && CanMerge(ws[|ws| - 1], r) then Total(ws) else 0
  {
    TotalSnoc(ws, r);
    assert [] + [r] == [r];
    TotalSnoc([], r);
  }

  /** The last queued request stands for the run `tail` of submissions. */
  ghost predicate TailOk(queue: seq<Request>, tail: seq<Request>) {
    && (queue == [] <==> tail == [])
    && (queue != [] ==> StandsFor(queue[|queue| - 1], tail[|tail| - 1]))
    && (queue != [] ==> queue[|queue| - 1].count == Total(tail) < WORD32)
  }

  lemma Lengthened(queue: seq<Request>, pending: seq<Request>, tail: seq<Request>, r: Request)
    requires queue != [] && Same(queue, pending) && TailOk(queue, tail) && CanMerge(queue[|queue| - 1], r)
    requires Total(tail + [r]) < WORD32
    ensures var queue' := queue[|queue| - 1 := Merge(queue[|queue| - 1], r)];
            Same(queue', pending + [r]) && TailOk(queue', tail + [r])
  {
    var last := queue[|queue| - 1];
    TotalSnoc(tail, r);
    MergedQueue(queue, pending, r);
    StandsForNext(last, r);
    assert Merge(last, r).count == last.count + r.count;
  }

  class RequestQueue {
    var queue: seq<Request>
    var world: World
    /** Submissions not yet run, and the run of them the last queue entry stands for. */
    ghost var pending: seq<Request>
    ghost var tail: seq<Request>

    ghost predicate Valid()
      reads this
    {
      |queue| <= DEPTH && Same(queue, pending) && TailOk(queue, tail)
    }

    constructor (w: World)
      ensures Valid() && pending == [] && tail == [] && world == w
    {
      queue, world, pending, tail := [], w, [], [];
    }

    /** Runs every queued request, each on a device that succeeds. */
    method Drain()
      requires Valid()
      modifies this
      ensures Valid() && pending == [] && queue == [] && tail == []
      ensures world == ExecAll(old(pending), old(world))
    {
      assert SameFrom(queue, pending, world);
      for i := 0 to |queue|
        invariant queue == old(queue) && pending == old(pending)
        invariant ExecAll(queue[i..], world) == ExecAll(old(queue), old(world))
      {
        assert queue[i..][0] == queue[i] && queue[i..][1..] == queue[i + 1..];
        Run(queue[i]);
      }
      queue, pending, tail := [], [], [];
    }

    /** One transfer, sector by sector, and the callback. */
    method Run(r: Request)
      modifies this`world
      ensures world == Exec(r, old(world))
    {
      if !r.valid {
        return;
      }
      for k := 0 to r.count
        invariant world == Transfers(r, k, old(world))
      {
        world := Transfer(r, k, world);
      }
      if r.callback != 0 {
        world := world.(calls := world.calls + [(r.callback, r.context)]);
      }
    }

    /** Lengthens the last queued request by one that continues it. */
    method MergeLast(r: Request)
      requires Valid() && queue != [] && CanMerge(queue[|queue| - 1], r) && Total(tail + [r]) < WORD32
      modifies this
      ensures Valid() && tail == old(tail) + [r] && world == old(world) && pending == old(pending) + [r]
    {
      Lengthened(queue, pending, tail, r);
      queue := queue[|queue| - 1 := Merge(queue[|queue| - 1], r)];
      pending, tail := pending + [r], tail + [r];
    }

    /** Queues a request by itself. */
    method Append(r: Request)
      requires Valid() && |queue| < DEPTH && r.count < WORD32
      modifies this
      ensures Valid() && tail == [r] && world == old(world) && pending == old(pending) + [r]
    {
      SameAppend(queue, pending, [r]);
      assert [] + [r] == [r];
      TotalSnoc([], r);
      queue, pending, tail := queue + [r], pending + [r], [r];
    }

    /** Queues a request, merging it with the last one if it continues it, and
        running the queue first if it is full.  The count of the run it belongs to
        must fit in 32 bits. */
    method Submit(r: Request)
      requires Valid()
      requires r.valid ==> Total(Grow(tail, r)) < WORD32
      modifies this
      ensures Valid() && tail == if r.valid then Grow(old(tail), r) else old(tail)
      ensures !r.valid ==> world == old(world) && pending == old(pending)
      ensures r.valid ==> (|| (world == old(world) && pending == old(pending) + [r])
                           || (world == ExecAll(old(pending), old(world)) && pending == [r]))
    {
      if !r.valid {
        return;
      }
      GrowTotal(tail, r);
      if |queue| > 0 {
        SameContinued(queue[|queue| - 1], tail[|tail| - 1], r);
        if CanMerge(queue[|queue| - 1], r) {
          MergeLast(r);
          return;
        }
      }
      if |queue| >= DEPTH {
        Drain();
      }
      assert [] + [r] == [r];
      Append(r);
    }
  }

  /** One submission or flush, seen from outside: nothing is lost, run twice or put
      out of order. */
  method Apply(q: RequestQueue, op: Op)
    requires q.Valid() && Total(NextTail(q.tail, op)) < WORD32
    modifies q
    ensures q.Valid() && q.tail == NextTail(old(q.tail), op)
    ensures ExecAll(q.pending, q.world) == ExecAll(Requested(op), ExecAll(old(q.pending), old(q.world)))
    ensures op.Flush? ==> q.pending == []
  {
    match op
    case Flush =>
      q.Drain();
    case Submit(r) =>
      ExecSnoc(q.pending, r, q.world);
      ExecOne(r, ExecAll(q.pending, q.world));
      q.Submit(r);
  }

  datatype Op = Submit(r: Request) | Flush

  ghost function NextTail(ws: seq<Request>, op: Op): seq<Request> {
    match op
    case Flush => []
    case Submit(r) => if r.valid then Grow(ws, r) else ws
  }

  ghost function Requested(op: Op): seq<Request> {
    match op
    case Flush => []
    case Submit(r) => [r]
  }

  /** The run that is being merged after the first `n` operations. */
  ghost function TailOf(ops: seq<Op>, n: nat): seq<Request>
    requires n <= |ops|
  {
    if n == 0 then [] else NextTail(TailOf(ops, n - 1), ops[n - 1])
  }

  /** The sectors of that run fit in a count. */
  ghost predicate TailFits(ops: seq<Op>, n: nat) { n <= |ops| && Total(TailOf(ops, n)) < WORD32 }

  lemma NextFits(ops: seq<Op>, n: nat)
    requires n < |ops| && TailFits(ops, n + 1)
    ensures NextTail(TailOf(ops, n), ops[n]) == TailOf(ops, n + 1) && Total(NextTail(TailOf(ops, n), ops[n])) < WORD32
  {}

  /** The requests among the first `n` operations. */
  ghost function Submitted(ops: seq<Op>, n: nat): seq<Request>
    requires n <= |ops|
  {
    if n == 0 then [] else Submitted(ops, n - 1) + Requested(ops[n - 1])
  }

  /** The first `n` operations' requests, run once each and in order, lead to `w'`. */
  ghost predicate RanAll(ops: seq<Op>, n: nat, w: World, w': World) {
    n <= |ops| && w' == ExecAll(Submitted(ops, n), w)
  }

  ghost predicate FlushedAt(ops: seq<Op>, i: nat, w: World, w': World) {
    i < |ops| && (ops[i].Flush? ==> RanAll(ops, i + 1, w, w'))
  }

  /** At each flush so far, every request before it has been run. */
  ghost predicate Flushed(ops: seq<Op>, worlds: seq<World>, w: World) {
    |worlds| <= |ops| && forall i {:trigger worlds[i]} :: 0 <= i < |worlds| ==> FlushedAt(ops, i, w, worlds[i])
  }

  lemma FlushedNext(ops: seq<Op>, worlds: seq<World>, w: World, w': World)
    requires Flushed(ops, worlds, w) && |worlds| < |ops|
    requires FlushedAt(ops, |worlds|, w, w')
    ensures Flushed(ops, worlds + [w'], w)
  {
    var worlds' := worlds + [w'];
    forall i {:trigger worlds'[i]} | 0 <= i < |worlds'| ensures FlushedAt(ops, i, w, worlds'[i]) {
      assert i < |worlds| ==> worlds'[i] == worlds[i];
    }
  }

  lemma RanNext(ops: seq<Op>, n: nat, w: World, w': World)
    requires n < |ops| && RanAll(ops, n, w, w')
    ensures RanAll(ops, n + 1, w, ExecAll(Requested(ops[n]), w'))
  {
    ExecAllConcat(Submitted(ops, n), Requested(ops[n]), w);
  }

  /** Operation `i` of a run. */
  method ApplyNext(q: RequestQueue, ops: seq<Op>, i: nat, ghost w: World)
    requires q.Valid() && i < |ops| && TailFits(ops, i + 1)
    requires q.tail == TailOf(ops, i) && RanAll(ops, i, w, ExecAll(q.pending, q.world))
    modifies q
    ensures q.Valid() && q.tail == TailOf(ops, i + 1) && RanAll(ops, i + 1, w, ExecAll(q.pending, q.world))
    ensures FlushedAt(ops, i, w, q.world)
  {
    NextFits(ops, i);
    RanNext(ops, i, w, ExecAll(q.pending, q.world));
    Apply(q, ops[i]);
  }

  /** Submissions and flushes in any order: at every flush, and at the end, each
      request so far has run exactly once, in order, however they were merged.  No run
      of requests that continue one another may hold more sectors than a count can. */
  method RunOps(ops: seq<Op>, w: World) returns (w': World, ghost worlds: seq<World>)
    requires forall i :: 0 <= i <= |ops| ==> TailFits(ops, i)
    ensures |worlds| == |ops| && Flushed(ops, worlds, w)
    ensures w' == ExecAll(Submitted(ops, |ops|), w)
    ensures w'.calls == w.calls + Callbacks(Submitted(ops, |ops|))
  {
    var q := new RequestQueue(w);
    worlds := [];
    for i := 0 to |ops|
      invariant q.Valid() && fresh(q) && q.tail == TailOf(ops, i) && |worlds| == i
      invariant RanAll(ops, i, w, ExecAll(q.pending, q.world))
      invariant Flushed(ops, worlds, w)
    {
      ApplyNext(q, ops, i, w);
      FlushedNext(ops, worlds, w, q.world);
      worlds := worlds + [q.world];
    }
    q.Drain();
    CallsOnce(Submitted(ops, |ops|), w);
    return q.world, worlds;
  }

  lemma ExecSnoc(rs: seq<Request>, r: Request, w: World)
    ensures ExecAll(rs + [r], w) == Exec(r, ExecAll(rs, w))
  {
    ExecAllConcat(rs, [r], w);
    ExecOne(r, ExecAll(rs, w));
  }

  ghost function Callbacks(rs: seq<Request>): seq<(nat, nat)> {
    if rs == [] then []
    else (if rs[0].valid && rs[0].callback != 0 then [(rs[0].callback, rs[0].context)] else []) + Callbacks(rs[1..])
  }

  lemma {:induction false} TransfersCallNothing(r: Request, n: nat, w: World)
    ensures Transfers(r, n, w).calls == w.calls
  {
    if n > 0 {
      TransfersCallNothing(r, n - 1, w);
    }
  }

  /** Every valid request with a callback is completed exactly once, in order. */
  lemma {:induction false} CallsOnce(rs: seq<Request>, w: World)
    ensures ExecAll(rs, w).calls == w.calls + Callbacks(rs)
    decreases |rs|
  {
    if rs != [] {
      var r := rs[0];
      TransfersCallNothing(r, r.count, w);
      CallsOnce(rs[1..], Exec(r, w));
    }
  }
}
