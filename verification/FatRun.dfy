/** Whole runs on one FAT32 directory without dot entries, such as the root directory:
    create, write, truncate, unlink, mkdir and rmdir in any order.  The table always
    consists of exactly the directory's chain and the chains of its entries. */
module FatRun {
  import opened Bitmap
  import opened Bytes
  import opened Extents
  import opened Contents
  import opened FatTable
  import opened FatChains
  import opened FatFiles
  import opened FatWrite
  import opened FatNames
  import opened FatDirs
  import opened FatEntries
  import opened FatCreate
  import opened FatUpdate
  import opened FatDelete
  import opened Runs

  // ----- the state between operations -----

  /** Which chain each entry of the directory has; none for a file without clusters. */
  type Owners = map<nat, seq<nat>>

  ghost predicate Owned(own: Owners, a: seq<nat>) { exists k {:trigger own[k]} :: k in own && own[k] == a }

  /** The directory's chain and the chains of its entries. */
  ghost function AllChains(ch: seq<nat>, own: Owners): (r: set<seq<nat>>)
    ensures forall a :: a in r <==> a == ch || (a != [] && Owned(own, a))
  {
    var r := {ch} + (set k | k in own && own[k] != [] :: own[k]);
    assert forall a :: a in r <==> a == ch || (a != [] && Owned(own, a));
    r
  }

  /** No two entries share a chain, and none has the directory's. */
  ghost predicate Distinct(ch: seq<nat>, own: Owners) {
    && (forall k :: k in own ==> own[k] != ch)
    && forall i, j {:trigger own[i], own[j]} :: i in own && j in own && i != j && own[i] != [] ==> own[i] != own[j]
  }

  /** What an entry says fits its chain. */
  ghost predicate Consistent(g: Geo, d: seq<Block>, r: Raw, a: seq<nat>) {
    && (if a == [] then FirstCluster(r) == 0 && FileSize(r) == 0 else FirstCluster(r) == a[0])
    && FileSize(r) <= 512 * |Sectors(g, a)| && (IsDirectory(r) ==> a != [] && WellFormed(Entries(d, Sectors(g, a))))
  }

  /** The entries of the directory. */
  ghost function Dir(g: Geo, d: seq<Block>, ch: seq<nat>): seq<Raw> { Entries(d, Sectors(g, ch)) }

  ghost predicate Items(g: Geo, d: seq<Block>, dir: seq<Raw>, own: Owners) {
    && (forall k: nat {:trigger LiveAt(dir, k)} {:trigger k in own} :: LiveAt(dir, k) <==> k in own)
    && forall k :: k in own ==> LiveAt(dir, k) && Consistent(g, d, dir[k], own[k])
  }

  ghost predicate Inv(vol: FatVolume, ch: seq<nat>, own: Owners)
    reads vol
  {
    && Sound(vol, AllChains(ch, own)) && ch != [] && Distinct(ch, own)
    && WellFormed(Dir(vol.geo, vol.disk, ch)) && Items(vol.geo, vol.disk, Dir(vol.geo, vol.disk, ch), own)
  }

  // ----- what a caller sees -----

  datatype Item = File(data: seq<Byte>, clusters: nat) | Sub(entries: seq<Raw>, clusters: nat)

  ghost function ItemOf(g: Geo, d: seq<Block>, r: Raw, a: seq<nat>): Item {
    if IsDirectory(r) then Sub(Entries(d, Sectors(g, a)), |a|) else File(Content(d, Sectors(g, a), FileSize(r)), |a|)
  }

  /** The raw entries of the directory, the file or directory behind each live one, and
      the number of free clusters. */
  datatype State = State(dir: seq<Raw>, items: map<nat, Item>, free: nat)

  ghost function ItemsOf(g: Geo, d: seq<Block>, dir: seq<Raw>, own: Owners): map<nat, Item> {
    map k | k in own && k < |dir| :: ItemOf(g, d, dir[k], own[k])
  }

  ghost function StateOf(g: Geo, d: seq<Block>, ch: seq<nat>, own: Owners): State
    requires Backed(g, d)
  {
    State(Dir(g, d, ch), ItemsOf(g, d, Dir(g, d, ch), own), FreeClusters(g, d))
  }

  ghost function Now(vol: FatVolume, ch: seq<nat>, own: Owners): State
    requires Backed(vol.geo, vol.disk)
    reads vol
  {
    StateOf(vol.geo, vol.disk, ch, own)
  }

  // ----- sets of chains -----

  lemma DirGrown(ch: seq<nat>, cur: seq<nat>, own: Owners)
    requires Distinct(ch, own) && cur != []
    ensures Regrown(AllChains(ch, own), ch, cur) == AllChains(cur, own)
  {
    assert forall a :: Owned(own, a) ==> a != ch;
  }

  lemma ItemAdded(ch: seq<nat>, own: Owners, k: nat, a: seq<nat>)
    requires k !in own
    ensures AllChains(ch, own[k := a]) == if a == [] then AllChains(ch, own) else AllChains(ch, own) + {a}
    ensures Distinct(ch, own) && ch != [] && (a == [] || a !in AllChains(ch, own)) ==> Distinct(ch, own[k := a])
  {
    var own' := own[k := a];
    forall x: seq<nat> ensures Owned(own', x) <==> Owned(own, x) || x == a {
      assert own'[k] == a;
      if Owned(own, x) {
        var j :| j in own && own[j] == x;
        assert own'[j] == x;
      }
    }
    if Distinct(ch, own) && ch != [] && (a == [] || a !in AllChains(ch, own)) {
      assert forall j :: j in own' && j != k ==> j in own && own'[j] == own[j] && (own[j] != [] ==> Owned(own, own[j]));
    }
  }

  lemma ItemChanged(ch: seq<nat>, own: Owners, k: nat, a: seq<nat>)
    requires k in own && Distinct(ch, own) && ch != []
    ensures AllChains(ch, own[k := a]) == Regrown(AllChains(ch, own), own[k], a)
  {
    var own' := own[k := a];
    forall x: seq<nat> | x != [] ensures Owned(own', x) <==> (Owned(own, x) && x != own[k]) || x == a {
      assert own'[k] == a;
      if Owned(own, x) && x != own[k] {
        var j :| j in own && own[j] == x;
        assert own'[j] == x;
      }
      if Owned(own', x) && x != a {
        var j :| j in own' && own'[j] == x;
        assert own[j] == x;
      }
    }
  }

  lemma ItemDropped(ch: seq<nat>, own: Owners, k: nat)
    requires k in own && Distinct(ch, own) && ch != []
    ensures AllChains(ch, own - {k}) == if own[k] == [] then AllChains(ch, own) else AllChains(ch, own) - {own[k]}
  {
    var own' := own - {k};
    forall x: seq<nat> | x != [] ensures Owned(own', x) <==> Owned(own, x) && x != own[k] {
      if Owned(own, x) && x != own[k] {
        var j :| j in own && own[j] == x;
        assert own'[j] == x;
      }
      if Owned(own', x) {
        var j :| j in own' && own'[j] == x;
        assert own[j] == x;
      }
    }
  }

  lemma GrownDistinct(f: seq<nat>, ch: seq<nat>, cur: seq<nat>, own: Owners)
    requires Forest(f, AllChains(ch, own)) && Distinct(ch, own) && cur != []
    requires forall a :: a in AllChains(ch, own) && a != ch ==> Disjoint(a, cur)
    ensures Distinct(cur, own)
  {
    forall k | k in own ensures own[k] != cur {
      if own[k] != [] {
        assert Owned(own, own[k]) && Disjoint(own[k], cur) && cur[0] in cur;
      }
    }
  }

  // ----- entries that stay -----

  /** The item of an entry whose chain's sectors are as they were. */
  lemma ItemKept(g: Geo, d: seq<Block>, d': seq<Block>, f: seq<nat>, chains: set<seq<nat>>, kept: set<seq<nat>>, r: Raw,
                 a: seq<nat>)
    requires Backed(g, d) && |f| == g.clusters + 2 && Forest(f, chains) && ChainsKept(g, d, d', kept) && kept <= chains
    requires (a == [] || a in kept) && Consistent(g, d, r, a)
    ensures ItemOf(g, d', r, a) == ItemOf(g, d, r, a) && Consistent(g, d', r, a)
  {
    if a == [] {
      assert ChainExtents(g, []) == [];
      assert Content(d', [], 0) == Content(d, [], 0);
    } else {
      ChainData(g, f, chains, a);
      ContentsKept(g, d, d', kept, a, FileSize(r));
    }
  }

  /** Entry `j` has the same item before and after. */
  ghost predicate SameItem(g: Geo, d: seq<Block>, d': seq<Block>, dir: seq<Raw>, dir': seq<Raw>, own: Owners,
                           own': Owners, j: nat) {
    && j in own && j in own' && own'[j] == own[j] && j < |dir| && LiveAt(dir', j)
    && ItemOf(g, d', dir'[j], own'[j]) == ItemOf(g, d, dir[j], own[j]) && Consistent(g, d', dir'[j], own'[j])
  }

  /** Two maps agree everywhere but at `k`. */
  ghost predicate SameElse<T>(m: map<nat, T>, m': map<nat, T>, k: nat) {
    forall j: nat {:trigger j in m} {:trigger j in m'} :: j != k ==> (j in m <==> j in m') && (j in m ==> m'[j] == m[j])
  }

  lemma ItemsCarried(g: Geo, d: seq<Block>, d': seq<Block>, dir: seq<Raw>, dir': seq<Raw>, own: Owners, own': Owners,
                     k: nat)
    requires Items(g, d, dir, own) && SameLive(dir, dir', k) && SameElse(own, own', k)
    requires forall j: nat {:trigger SameItem(g, d, d', dir, dir', own, own', j)} :: j in own && j != k ==>
      SameItem(g, d, d', dir, dir', own, own', j)
    requires (k in own' <==> LiveAt(dir', k)) && (k in own' ==> Consistent(g, d', dir'[k], own'[k]))
    ensures Items(g, d', dir', own')
    ensures SameElse(ItemsOf(g, d, dir, own), ItemsOf(g, d', dir', own'), k)
  {
    forall j: nat ensures LiveAt(dir', j) <==> j in own' {
      if j != k {
        assert LiveAt(dir', j) ==> Kept(dir, dir', j) && LiveAt(dir, j);
        assert j in own ==> SameItem(g, d, d', dir, dir', own, own', j);
      }
    }
    forall j: nat | j in own' ensures LiveAt(dir', j) && Consistent(g, d', dir'[j], own'[j]) {
      assert j != k ==> j in own && SameItem(g, d, d', dir, dir', own, own', j);
    }
    var items, items' := ItemsOf(g, d, dir, own), ItemsOf(g, d', dir', own');
    forall j | j in own' && j != k ensures j in items && j in items' && items'[j] == items[j] {
      assert SameItem(g, d, d', dir, dir', own, own', j);
    }
    forall j | j in items && j != k ensures j in items' {
      assert SameItem(g, d, d', dir, dir', own, own', j);
    }
  }

  /** After a change to entry `k` only, all other items are what they were. */
  lemma OtherItems(g: Geo, d: seq<Block>, d': seq<Block>, f: seq<nat>, ch: seq<nat>, own: Owners, own': Owners,
                   dir: seq<Raw>, dir': seq<Raw>, k: nat, kept: set<seq<nat>>)
    requires Backed(g, d) && |f| == g.clusters + 2 && Forest(f, AllChains(ch, own)) && Items(g, d, dir, own)
    requires ChainsKept(g, d, d', kept) && kept <= AllChains(ch, own) && SameLive(dir, dir', k)
    requires SameElse(own, own', k)
    requires forall j :: j in own && j != k ==> own[j] == [] || own[j] in kept
    requires (k in own' <==> LiveAt(dir', k)) && (k in own' ==> Consistent(g, d', dir'[k], own'[k]))
    ensures Items(g, d', dir', own')
    ensures SameElse(ItemsOf(g, d, dir, own), ItemsOf(g, d', dir', own'), k)
  {
    forall j: nat | j in own && j != k ensures SameItem(g, d, d', dir, dir', own, own', j) {
      assert LiveAt(dir, j) && Kept(dir, dir', j);
      ItemKept(g, d, d', f, AllChains(ch, own), kept, dir[j], own[j]);
    }
    ItemsCarried(g, d, d', dir, dir', own, own', k);
  }

  // ----- operations -----

  datatype Op =
    | Create(name: seq<Byte>)
    | Write(name: seq<Byte>, offset: nat, buf: seq<Byte>)
    | Truncate(name: seq<Byte>)
    | Unlink(name: seq<Byte>)
    | Mkdir(name: seq<Byte>)
    | Rmdir(name: seq<Byte>)

  /** A name that is a C string, and a request in 32-bit range. */
  ghost predicate Legal(op: Op) {
    && 0 !in op.name && op.name != []
    && (op.Write? ==> op.offset < 0x1_0000_0000 && |op.buf| < 0x1_0000_0000)
  }

  /** The entry a name leads to is a file. */
  ghost predicate IsFileAt(s: State, k: int) { 0 <= k < |s.dir| && k in s.items && s.items[k].File? }

  ghost predicate IsDirAt(s: State, k: int) { 0 <= k < |s.dir| && k in s.items && s.items[k].Sub? }

  /** There are clusters for a write of `n` bytes at an offset of file `k`. */
  ghost predicate WriteFits(g: Geo, s: State, k: int, offset: nat, n: nat) {
    && IsFileAt(s, k) && offset <= |s.items[k].data|
    && (n == 0 || (offset + n < 0x1_0000_0000 && Enough(g, offset, n, s.items[k].clusters + s.free)))
  }

  /** When an operation succeeds, in terms of the state before it. */
  ghost predicate Succeeds(g: Geo, s: State, op: Op) {
    var k := Find(s.dir, op.name);
    match op
    case Create(name) => !IsDotName(name) && CanCreate(g, s.free, s.dir, name)
    case Mkdir(name) => CanMakeDir(g, s.free, s.dir, name)
    case Write(name, offset, buf) => WriteFits(g, s, k, offset, |buf|)
    case Truncate(name) => IsFileAt(s, k)
    case Unlink(name) => IsFileAt(s, k)
    case Rmdir(name) => IsDirAt(s, k) && OnlyDots(s.items[k].entries)
  }

  /** Entry `k` has come, gone or been rewritten; every other keeps its name and item. */
  ghost predicate OnlyEntry(s: State, s': State, k: nat) {
    SameLive(s.dir, s'.dir, k) && SameElse(s.items, s'.items, k)
  }

  /** A new entry `k` with the given attributes and item, in the first room there is. */
  ghost predicate Entered(s: State, now: seq<Raw>, s': State, name: seq<Byte>, attr: Byte, k: nat, item: Item) {
    && OnlyEntry(s, s', k) && k !in s.items && k in s'.items && s'.items[k] == item
    && exists cluster: nat ::
       EntryCreated(s.dir, s'.dir, name, attr, cluster, k) && Placed(s.dir, now, s'.dir, name, attr, cluster, k)
  }

  /** A new entry `k` for a directory that holds nothing. */
  ghost predicate MadeAt(s: State, now: seq<Raw>, s': State, name: seq<Byte>, k: nat, e: seq<Raw>) {
    Entered(s, now, s', name, ATTR_DIRECTORY, k, Sub(e, 1)) && WellFormed(e) && OnlyDots(e)
  }

  /** Nothing new, but the directory may have been given a cluster. */
  ghost predicate NotEntered(s: State, now: seq<Raw>, s': State) {
    s'.dir == now && SameLive(s.dir, s'.dir, -1) && s'.items == s.items
  }

  /** Two entries that differ at most in what they say about cluster and size. */
  ghost predicate Like(r: Raw, r': Raw) {
    || (IsEnd(r) && IsEnd(r')) || (IsDeleted(r) && IsDeleted(r'))
    || (!IsFree(r) && !IsFree(r') && r'[..12] == r[..12] && (IsShort(r) || r' == r))
  }

  ghost predicate AllLike(a: seq<Raw>, b: seq<Raw>) {
    |a| == |b| && forall j {:trigger Like(a[j], b[j])} :: 0 <= j < |a| ==> Like(a[j], b[j])
  }

  /** Item `k` is a file as `file` describes it. */
  ghost function AsFile(g: Geo, item: Item): FatFile
    requires item.File?
  {
    FatFile(if item.clusters > 0 then g.root else 0, |item.data|, 0, 1, 0)
  }

  /** File `k` has so many bytes and clusters now, with `part` at an offset and the rest
      of its old bytes as they were; all lookups lead where they led. */
  ghost predicate Rewritten(s: State, s': State, k: int, size: nat, clusters: nat, offset: nat, part: seq<Byte>) {
    && IsFileAt(s, k) && OnlyEntry(s, s', k) && IsFileAt(s', k) && AllLike(s.dir, s'.dir)
    && (forall n :: Find(s'.dir, n) == Find(s.dir, n))
    && s'.items[k].clusters == clusters && s'.free + clusters == s.free + s.items[k].clusters
    && var data, data' := s.items[k].data, s'.items[k].data;
    && |data'| == size && offset <= |data|
    && var m := Min(size, Max(|data|, offset + |part|));
       data'[..m] == Overwrite(data, offset, part)[..m]
  }

  /** What a write to file `k` does, successful or not. */
  ghost predicate Wrote(g: Geo, s: State, s': State, k: int, offset: nat, buf: seq<Byte>, ok: bool) {
    && IsFileAt(s, k)
    && var file, n := AsFile(g, s.items[k]), s.items[k].clusters;
    && (n == 0 ==> file.size == 0)
    && if offset > file.size then s' == s
       else Rewritten(s, s', k, if ok then NewSize(g, s.free, file, n, offset, |buf|) else file.size,
                      LengthAfter(g, s.free, file, n, offset, |buf|), offset,
                      PartAfter(g, s.free, file, n, offset, buf))
  }

  /** Whether creating a file gives the directory one more cluster. */
  ghost predicate FileGrows(s: State, name: seq<Byte>) { !IsDotName(name) && Grows(s.free, s.dir, name) }

  /** A file was created or not, and the directory given a cluster or not. */
  ghost predicate CreateDone(g: Geo, s: State, name: seq<Byte>, ok: bool, s': State, more: bool) {
    var now := Lengthened(g, s.dir, more);
    && s'.free == s.free - (if more then 1 else 0)
    && if ok then exists i :: Entered(s, now, s', name, 0, i, File([], 0)) else NotEntered(s, now, s')
  }

  /** The same for a directory, which takes a cluster itself. */
  ghost predicate MkdirDone(g: Geo, s: State, name: seq<Byte>, ok: bool, s': State, more: bool) {
    var now := Lengthened(g, s.dir, more);
    && s'.free == s.free - (if more then 1 else 0) - (if ok then 1 else 0)
    && if ok then exists i, e :: MadeAt(s, now, s', name, i, e) else NotEntered(s, now, s')
  }

  /** What an operation does, successful or not. */
  ghost predicate Effect(g: Geo, s: State, op: Op, ok: bool, s': State) {
    var k := Find(s.dir, op.name);
    match op
    case Create(name) => CreateDone(g, s, name, ok, s', FileGrows(s, name))
    case Mkdir(name) => MkdirDone(g, s, name, ok, s', DirGrows(s.free, s.dir, name))
    case Write(name, offset, buf) =>
      if IsFileAt(s, k) then Wrote(g, s, s', k, offset, buf, ok) else s' == s
    case Truncate(name) =>
      if ok then IsFileAt(s, k) && Rewritten(s, s', k, 0, s.items[k].clusters, 0, []) else s' == s
    case Unlink(name) =>
      if ok then Gone(s, s', k) else s' == s
    case Rmdir(name) =>
      if ok then Gone(s, s', k) else s' == s
  }

  /** Entry `k` is no more, and its clusters are free. */
  ghost predicate Gone(s: State, s': State, k: int) {
    && k >= 0 && OnlyEntry(s, s', k) && EntryGone(s.dir, s'.dir, k) && Deleted(s.dir, s'.dir, k)
    && k in s.items && k !in s'.items && s'.free == s.free + s.items[k].clusters
  }

  /** One operation of a run. */
  ghost predicate Step(g: Geo, s: State, op: Op, ok: bool, s': State) {
    GeoOk(g) && (ok <==> Succeeds(g, s, op)) && Effect(g, s, op, ok, s')
  }

  lemma CreateStep(g: Geo, s: State, name: seq<Byte>, ok: bool, s': State, more: bool, k: nat)
    requires GeoOk(g) && (ok <==> !IsDotName(name) && CanCreate(g, s.free, s.dir, name))
    requires more <==> FileGrows(s, name)
    requires s'.free + (if more then 1 else 0) == s.free
    requires ok ==> Entered(s, Lengthened(g, s.dir, more), s', name, 0, k, File([], 0))
    requires !ok ==> NotEntered(s, Lengthened(g, s.dir, more), s')
    ensures Step(g, s, Create(name), ok, s')
  {
    assert CreateDone(g, s, name, ok, s', more);
  }

  lemma MkdirStep(g: Geo, s: State, name: seq<Byte>, ok: bool, s': State, more: bool, k: nat, e: seq<Raw>)
    requires GeoOk(g) && (ok <==> CanMakeDir(g, s.free, s.dir, name)) && (more <==> DirGrows(s.free, s.dir, name))
    requires s'.free + (if more then 1 else 0) + (if ok then 1 else 0) == s.free
    requires ok ==> MadeAt(s, Lengthened(g, s.dir, more), s', name, k, e)
    requires !ok ==> NotEntered(s, Lengthened(g, s.dir, more), s')
    ensures Step(g, s, Mkdir(name), ok, s')
  {
    assert MkdirDone(g, s, name, ok, s', more);
  }

  lemma WriteStep(g: Geo, s: State, name: seq<Byte>, offset: nat, buf: seq<Byte>, ok: bool, s': State, k: int)
    requires GeoOk(g) && k == Find(s.dir, name) && (ok <==> WriteFits(g, s, k, offset, |buf|))
    requires if IsFileAt(s, k) then Wrote(g, s, s', k, offset, buf, ok) else s' == s
    ensures Step(g, s, Write(name, offset, buf), ok, s')
  {}

  lemma TruncateStep(g: Geo, s: State, name: seq<Byte>, ok: bool, s': State, k: int)
    requires GeoOk(g) && k == Find(s.dir, name) && (ok <==> IsFileAt(s, k))
    requires if ok then Rewritten(s, s', k, 0, s.items[k].clusters, 0, []) else s' == s
    ensures Step(g, s, Truncate(name), ok, s')
  {}

  lemma UnlinkStep(g: Geo, s: State, name: seq<Byte>, ok: bool, s': State, k: int)
    requires GeoOk(g) && k == Find(s.dir, name) && (ok <==> IsFileAt(s, k))
    requires if ok then Gone(s, s', k) else s' == s
    ensures Step(g, s, Unlink(name), ok, s')
  {}

  lemma RmdirStep(g: Geo, s: State, name: seq<Byte>, ok: bool, s': State, k: int)
    requires GeoOk(g) && k == Find(s.dir, name) && (ok <==> IsDirAt(s, k) && OnlyDots(s.items[k].entries))
    requires if ok then Gone(s, s', k) else s' == s
    ensures Step(g, s, Rmdir(name), ok, s')
  {}

  /** A change to entry `k` only, seen as a step of the state. */
  lemma NextState(g: Geo, d: seq<Block>, d': seq<Block>, ch: seq<nat>, ch': seq<nat>, own: Owners, own': Owners, k: nat,
                  kept: set<seq<nat>>)
    requires Backed(g, d) && Backed(g, d') && Forest(Fat(g, d), AllChains(ch, own)) && Items(g, d, Dir(g, d, ch), own)
    requires ChainsKept(g, d, d', kept) && kept <= AllChains(ch, own) && SameLive(Dir(g, d, ch), Dir(g, d', ch'), k)
    requires SameElse(own, own', k)
    requires forall j :: j in own && j != k ==> own[j] == [] || own[j] in kept
    requires k in own' <==> LiveAt(Dir(g, d', ch'), k)
    requires k in own' ==> Consistent(g, d', Dir(g, d', ch')[k], own'[k])
    ensures Items(g, d', Dir(g, d', ch'), own')
    ensures var s, s' := StateOf(g, d, ch, own), StateOf(g, d', ch', own');
            && OnlyEntry(s, s', k) && (k in s'.items <==> k in own') && (k in s.items <==> k in own)
            && (k in own' ==> s'.items[k] == ItemOf(g, d', s'.dir[k], own'[k]))
  {
    OtherItems(g, d, d', Fat(g, d), ch, own, own', Dir(g, d, ch), Dir(g, d', ch'), k, kept);
  }

  /** Every chain but the directory's own is kept by what writes only there. */
  lemma AllButDir(g: Geo, d: seq<Block>, d': seq<Block>, ch: seq<nat>, cur: seq<nat>, own: Owners)
    requires Backed(g, d) && Forest(Fat(g, d), AllChains(ch, own)) && AllData(g, cur) && Distinct(ch, own)
    requires (forall a :: a in AllChains(ch, own) && a != ch ==> Disjoint(a, cur)) && OwnOnly(g, d, d', Sectors(g, cur))
    ensures ChainsKept(g, d, d', AllChains(ch, own) - {ch})
    ensures forall j :: j in own ==> own[j] == [] || own[j] in AllChains(ch, own) - {ch}
  {
    var chains := AllChains(ch, own);
    OthersKept(g, d, d', Fat(g, d), chains, ch, cur, ch, 0);
    assert Others(chains, ch, ch, 0) == chains - {ch};
    forall j | j in own && own[j] != [] ensures own[j] in chains - {ch} { assert Owned(own, own[j]); }
  }

  /** Creates an empty file. */
  method DoCreate(vol: FatVolume, root: nat, name: seq<Byte>, ghost ch: seq<nat>, ghost own: Owners)
    returns (ok: bool, ghost ch': seq<nat>, ghost own': Owners)
    requires Inv(vol, ch, own) && root == ch[0] && 0 !in name && name != []
    modifies vol
    ensures Inv(vol, ch', own') && root == ch'[0]
    ensures Step(vol.geo, old(Now(vol, ch, own)), Create(name), ok, Now(vol, ch', own'))
  {
    ghost var g, d, chains := vol.geo, vol.disk, AllChains(ch, own);
    ghost var dir := Dir(g, d, ch);
    ch', own' := ch, own;
    var k := 0;
    if IsDotName(name) {
      NothingAtAll(vol, ch, own);
      CreateStep(g, Now(vol, ch, own), name, false, Now(vol, ch, own), false, k);
      return false, ch, own;
    }
    ok, k, ch' := CreateEntry(vol, root, name, 0, 0, chains, ch);
    own' := if ok then own[k := []] else own;
    ChainData(g, Fat(g, vol.disk), Regrown(chains, ch, ch'), ch');
    AllButDir(g, d, vol.disk, ch, ch', own);
    DirGrown(ch, ch', own);
    GrownDistinct(Fat(g, d), ch, ch', own);
    if ok {
      ItemAdded(ch', own, k, []);
      CreatedItem(g, d, vol.disk, ch, ch', own, Before(g, FreeClusters(g, d), dir, name), name, k);
    } else {
      NothingNew(g, d, vol.disk, ch, ch', own);
    }
    CreateStep(g, StateOf(g, d, ch, own), name, ok, Now(vol, ch', own'), Grows(FreeClusters(g, d), dir, name), k);
  }

  lemma CreatedItem(g: Geo, d: seq<Block>, d': seq<Block>, ch: seq<nat>, ch': seq<nat>, own: Owners, now: seq<Raw>,
                    name: seq<Byte>, k: nat)
    requires Backed(g, d) && Backed(g, d') && Forest(Fat(g, d), AllChains(ch, own)) && Items(g, d, Dir(g, d, ch), own)
    requires ChainsKept(g, d, d', AllChains(ch, own) - {ch}) && forall j :: j in own ==>
      own[j] == [] || own[j] in AllChains(ch, own) - {ch}
    requires EntryCreated(Dir(g, d, ch), Dir(g, d', ch'), name, 0, 0, k)
    requires Placed(Dir(g, d, ch), now, Dir(g, d', ch'), name, 0, 0, k)
    ensures k !in own && Items(g, d', Dir(g, d', ch'), own[k := []])
    ensures Entered(StateOf(g, d, ch, own), now, StateOf(g, d', ch', own[k := []]), name, 0, k, File([], 0))
  {
    var own' := own[k := []];
    assert Consistent(g, d', Dir(g, d', ch')[k], []);
    NextState(g, d, d', ch, ch', own, own', k, AllChains(ch, own) - {ch});
  }

  lemma NothingNew(g: Geo, d: seq<Block>, d': seq<Block>, ch: seq<nat>, ch': seq<nat>, own: Owners)
    requires Backed(g, d) && Backed(g, d') && Forest(Fat(g, d), AllChains(ch, own)) && Items(g, d, Dir(g, d, ch), own)
    requires ChainsKept(g, d, d', AllChains(ch, own) - {ch}) && forall j :: j in own ==>
      own[j] == [] || own[j] in AllChains(ch, own) - {ch}
    requires SameLive(Dir(g, d, ch), Dir(g, d', ch'), -1)
    ensures Items(g, d', Dir(g, d', ch'), own)
    ensures NotEntered(StateOf(g, d, ch, own), Dir(g, d', ch'), StateOf(g, d', ch', own))
  {
    var k := |Dir(g, d, ch)| + |Dir(g, d', ch')|;
    var s, s' := StateOf(g, d, ch, own), StateOf(g, d', ch', own);
    assert SameLive(Dir(g, d, ch), Dir(g, d', ch'), k);
    assert !LiveAt(Dir(g, d, ch), k);
    NextState(g, d, d', ch, ch', own, own, k, AllChains(ch, own) - {ch});
    SameEverywhere(s.items, s'.items, k);
  }

  lemma NothingAtAll(vol: FatVolume, ch: seq<nat>, own: Owners)
    requires Inv(vol, ch, own)
    ensures NotEntered(Now(vol, ch, own), Now(vol, ch, own).dir, Now(vol, ch, own))
  {}

  lemma SameEverywhere<T>(m: map<nat, T>, m': map<nat, T>, k: nat)
    requires SameElse(m, m', k) && k !in m && k !in m'
    ensures m' == m
  {
    assert forall j: nat :: j in m <==> j in m';
  }

  /** Makes a directory. */
  method DoMkdir(vol: FatVolume, root: nat, name: seq<Byte>, ghost ch: seq<nat>, ghost own: Owners)
    returns (ok: bool, ghost ch': seq<nat>, ghost own': Owners)
    requires Inv(vol, ch, own) && root == ch[0] && 0 !in name && name != []
    modifies vol
    ensures Inv(vol, ch', own') && root == ch'[0]
    ensures Step(vol.geo, old(Now(vol, ch, own)), Mkdir(name), ok, Now(vol, ch', own'))
  {
    ghost var g, d, chains := vol.geo, vol.disk, AllChains(ch, own);
    var k, cluster;
    ok, k, cluster, ch' := MakeDirectory(vol, root, name, chains, ch);
    own' := if ok then own[k := [cluster]] else own;
    DirGrown(ch, ch', own);
    GrownDistinct(Fat(g, d), ch, ch', own);
    ItemsInChains(ch, own);
    if ok {
      NewChainApart(ch, ch', own, cluster);
      ItemAdded(ch', own, k, [cluster]);
      FreshIsEmpty(DirOf(g, vol.disk, cluster), cluster, root);
      MadeItem(g, d, vol.disk, ch, ch', own, BeforeDir(g, FreeClusters(g, d), Dir(g, d, ch), name), name, k, cluster);
    } else {
      NothingNew(g, d, vol.disk, ch, ch', own);
    }
    MkdirStep(g, StateOf(g, d, ch, own), name, ok, Now(vol, ch', own'),
              DirGrows(FreeClusters(g, d), Dir(g, d, ch), name), k, if ok then DirOf(g, vol.disk, cluster) else []);
  }

  lemma ItemsInChains(ch: seq<nat>, own: Owners)
    requires Distinct(ch, own)
    ensures forall j :: j in own ==> own[j] == [] || own[j] in AllChains(ch, own) - {ch}
  {
    forall j | j in own && own[j] != [] ensures own[j] in AllChains(ch, own) - {ch} { assert Owned(own, own[j]); }
  }

  lemma NewChainApart(ch: seq<nat>, ch': seq<nat>, own: Owners, c: nat)
    requires [c] !in AllChains(ch, own) && c !in ch'
    ensures [c] !in AllChains(ch', own)
  {
    assert c in [c];
  }

  lemma MadeItem(g: Geo, d: seq<Block>, d': seq<Block>, ch: seq<nat>, ch': seq<nat>, own: Owners, now: seq<Raw>,
                 name: seq<Byte>, k: nat, c: nat)
    requires Backed(g, d) && Backed(g, d') && Forest(Fat(g, d), AllChains(ch, own)) && Items(g, d, Dir(g, d, ch), own)
    requires ChainsKept(g, d, d', AllChains(ch, own) - {ch}) && forall j :: j in own ==>
      own[j] == [] || own[j] in AllChains(ch, own) - {ch}
    requires EntryCreated(Dir(g, d, ch), Dir(g, d', ch'), name, ATTR_DIRECTORY, c, k)
    requires Placed(Dir(g, d, ch), now, Dir(g, d', ch'), name, ATTR_DIRECTORY, c, k)
    requires WellFormed(DirOf(g, d', c))
    ensures k !in own && Items(g, d', Dir(g, d', ch'), own[k := [c]])
    ensures Entered(StateOf(g, d, ch, own), now, StateOf(g, d', ch', own[k := [c]]), name, ATTR_DIRECTORY, k,
                    Sub(DirOf(g, d', c), 1))
  {
    var own' := own[k := [c]];
    var r := Dir(g, d', ch')[k];
    assert r[11] == ATTR_DIRECTORY;
    DirectoryAttr(r);
    assert Consistent(g, d', r, [c]);
    NextState(g, d, d', ch, ch', own, own', k, AllChains(ch, own) - {ch});
  }

  lemma DirectoryAttr(r: Raw)
    requires r[11] == ATTR_DIRECTORY
    ensures IsDirectory(r)
  {}

  // ----- removing -----

  /** Entry `k` of the directory was deleted and its chain given back. */
  lemma GoneItem(g: Geo, d: seq<Block>, d': seq<Block>, ch: seq<nat>, own: Owners, k: nat)
    requires Backed(g, d) && Backed(g, d') && Forest(Fat(g, d), AllChains(ch, own)) && Items(g, d, Dir(g, d, ch), own)
    requires k in own
    requires Distinct(ch, own) && ch != [] && OwnOnly(g, d, d', Sectors(g, ch))
    requires EntryGone(Dir(g, d, ch), Dir(g, d', ch), k) && Deleted(Dir(g, d, ch), Dir(g, d', ch), k)
    requires FreeClusters(g, d') == FreeClusters(g, d) + |own[k]|
    ensures Items(g, d', Dir(g, d', ch), own - {k}) && Distinct(ch, own - {k})
    ensures Gone(StateOf(g, d, ch, own), StateOf(g, d', ch, own - {k}), k)
    ensures AllChains(ch, own - {k}) == if own[k] == [] then AllChains(ch, own) else AllChains(ch, own) - {own[k]}
  {
    var chains := AllChains(ch, own);
    ChainData(g, Fat(g, d), chains, ch);
    forall a: seq<nat> | a in chains && a != ch ensures Disjoint(a, ch) { assert Has(chains, a) && Has(chains, ch); }
    AllButDir(g, d, d', ch, ch, own);
    ItemDropped(ch, own, k);
    NextState(g, d, d', ch, ch, own, own - {k}, k, chains - {ch});
  }

  /** What an entry and its chain say about each other. */
  lemma ChainOfItem(vol: FatVolume, ch: seq<nat>, own: Owners, k: nat)
    requires Inv(vol, ch, own) && k in own
    ensures var dir := Dir(vol.geo, vol.disk, ch);
            && k < |dir| && Consistent(vol.geo, vol.disk, dir[k], own[k]) && IsShort(dir[k])
            && (IsData(vol.geo, FirstCluster(dir[k])) <==> own[k] != [])
            && (own[k] != [] ==> OwnChain(AllChains(ch, own), ch, own[k], FirstCluster(dir[k])))
  {
    var g, chains := vol.geo, AllChains(ch, own);
    assert LiveAt(Dir(g, vol.disk, ch), k);
    if own[k] != [] {
      assert Owned(own, own[k]);
      ChainData(g, Fat(g, vol.disk), chains, own[k]);
      assert IsData(g, own[k][0]);
    }
  }

  lemma FoundIsOwned(vol: FatVolume, ch: seq<nat>, own: Owners, name: seq<Byte>)
    requires Inv(vol, ch, own)
    ensures var dir, s := Dir(vol.geo, vol.disk, ch), Now(vol, ch, own);
            var k := Find(dir, name);
            k >= 0 ==>
              && k in own && k in s.items && (IsDirectory(dir[k]) <==> s.items[k].Sub?)
              && s.items[k] == ItemOf(vol.geo, vol.disk, dir[k], own[k])
  {
    var dir := Dir(vol.geo, vol.disk, ch);
    FindIsFirst(dir, name, 0);
    assert Find(dir, name) >= 0 ==> LiveAt(dir, Find(dir, name));
  }

  /** Removes a file. */
  method DoUnlink(vol: FatVolume, root: nat, name: seq<Byte>, ghost ch: seq<nat>, ghost own: Owners)
    returns (ok: bool, ghost own': Owners)
    requires Inv(vol, ch, own) && root == ch[0]
    modifies vol
    ensures Inv(vol, ch, own') && Step(vol.geo, old(Now(vol, ch, own)), Unlink(name), ok, Now(vol, ch, own'))
  {
    ghost var g, d, dir := vol.geo, vol.disk, Dir(vol.geo, vol.disk, ch);
    ghost var k := Find(dir, name);
    FoundIsOwned(vol, ch, own, name);
    ghost var a := if k >= 0 then own[k] else [];
    if k >= 0 {
      ChainOfItem(vol, ch, own, k);
    }
    ok := UnlinkEntry(vol, root, name, AllChains(ch, own), ch, a);
    own' := own;
    if ok {
      GoneItem(g, d, vol.disk, ch, own, k);
      own' := own - {k};
    }
    UnlinkStep(g, StateOf(g, d, ch, own), name, ok, Now(vol, ch, own'), k);
  }

  /** Removes an empty directory. */
  method DoRmdir(vol: FatVolume, root: nat, name: seq<Byte>, ghost ch: seq<nat>, ghost own: Owners)
    returns (ok: bool, ghost own': Owners)
    requires Inv(vol, ch, own) && root == ch[0]
    modifies vol
    ensures Inv(vol, ch, own') && Step(vol.geo, old(Now(vol, ch, own)), Rmdir(name), ok, Now(vol, ch, own'))
  {
    ghost var g, d, dir := vol.geo, vol.disk, Dir(vol.geo, vol.disk, ch);
    ghost var k := Find(dir, name);
    FoundIsOwned(vol, ch, own, name);
    ghost var a := if k >= 0 then own[k] else [];
    if k >= 0 {
      ChainOfItem(vol, ch, own, k);
    }
    ok := RemoveDirectory(vol, root, name, AllChains(ch, own), ch, a);
    own' := own;
    if ok {
      GoneItem(g, d, vol.disk, ch, own, k);
      own' := own - {k};
    }
    RmdirStep(g, StateOf(g, d, ch, own), name, ok, Now(vol, ch, own'), k);
  }

  // ----- writing -----

  lemma {:induction false} LittleEndianFits(b: seq<Byte>)
    ensures LittleEndian(b) < Pow256(|b|)
  {
    if b != [] {
      LittleEndianFits(b[1..]);
    }
  }

  lemma SizeFits(r: Raw)
    ensures FileSize(r) < 0x1_0000_0000
  {
    LittleEndianFits(r[28..32]);
    assert Pow256(4) == 256 * Pow256(3) && Pow256(3) == 256 * Pow256(2) && Pow256(2) == 65536;
  }

  lemma ChainReplaced(f: seq<nat>, ch: seq<nat>, own: Owners, k: nat, cur: seq<nat>)
    requires Forest(f, AllChains(ch, own)) && Distinct(ch, own) && ch != [] && k in own && own[k] <= cur
    requires forall a :: a in AllChains(ch, own) && a != own[k] ==> Disjoint(a, cur)
    ensures Distinct(ch, own[k := cur]) && AllChains(ch, own[k := cur]) == Regrown(AllChains(ch, own), own[k], cur)
  {
    ItemChanged(ch, own, k, cur);
    var own' := own[k := cur];
    ItemsInChains(ch, own);
    if cur != [] {
      assert cur[0] in cur && Disjoint(ch, cur);
      forall j | j in own && j != k ensures own[j] != cur {
        assert own[j] != [] ==> own[j] != own[k] && Disjoint(own[j], cur);
      }
    }
    assert forall j :: j in own' && j != k ==> own'[j] == own[j];
  }

  /** Entry `k` was redescribed and its chain is `cur` now. */
  lemma ChangedItem(g: Geo, d: seq<Block>, d': seq<Block>, ch: seq<nat>, own: Owners, k: nat, cur: seq<nat>,
                    file: FatFile)
    requires Backed(g, d) && Backed(g, d') && Forest(Fat(g, d), AllChains(ch, own)) && Distinct(ch, own) && ch != []
    requires k in own
    requires WellFormed(Dir(g, d, ch)) && Items(g, d, Dir(g, d, ch), own)
    requires Redescribed(Dir(g, d, ch), Dir(g, d', ch), k, file) && file.attr == Dir(g, d, ch)[k][11]
    requires Consistent(g, d', Dir(g, d', ch)[k], cur)
    requires ChainsKept(g, d, d', AllChains(ch, own) - {own[k]} - {ch})
    ensures WellFormed(Dir(g, d', ch)) && Items(g, d', Dir(g, d', ch), own[k := cur])
    ensures var s, s' := StateOf(g, d, ch, own), StateOf(g, d', ch, own[k := cur]);
            && OnlyEntry(s, s', k) && k < |s.dir| == |s'.dir| && k in s.items && k in s'.items
            && (forall n :: Find(s'.dir, n) == Find(s.dir, n))
            && s.items[k] == ItemOf(g, d, s.dir[k], own[k]) && s'.items[k] == ItemOf(g, d', s'.dir[k], cur)
  {
    var dir, dir', own' := Dir(g, d, ch), Dir(g, d', ch), own[k := cur];
    assert LiveAt(dir, k);
    LookupsKept(dir, dir', k, file);
    KeptInChains(ch, own, k);
    NextState(g, d, d', ch, ch, own, own', k, AllChains(ch, own) - {own[k]} - {ch});
  }

  /** A write to the file of entry `k`, seen as a step of the state. */
  lemma RewrittenItem(g: Geo, d: seq<Block>, d': seq<Block>, ch: seq<nat>, own: Owners, k: nat, cur: seq<nat>,
                      file: FatFile, chains': set<seq<nat>>, offset: nat, part: seq<Byte>)
    requires Backed(g, d) && Backed(g, d') && Forest(Fat(g, d), AllChains(ch, own)) && Distinct(ch, own) && ch != []
    requires k in own
    requires WellFormed(Dir(g, d, ch)) && Items(g, d, Dir(g, d, ch), own) && !IsDirectory(Dir(g, d, ch)[k])
    requires Redescribed(Dir(g, d, ch), Dir(g, d', ch), k, file) && file.attr == Dir(g, d, ch)[k][11]
    requires FileOk(g, chains', file, cur) && (cur == [] ==> file.first == 0 && file.size == 0)
    requires ChainsKept(g, d, d', AllChains(ch, own) - {own[k]} - {ch})
    requires FreeClusters(g, d') + |cur| == FreeClusters(g, d) + |own[k]|
    requires BytesStored(g, d, own[k], FileSize(Dir(g, d, ch)[k]), d', cur, file.size, offset, part)
    ensures WellFormed(Dir(g, d', ch)) && Items(g, d', Dir(g, d', ch), own[k := cur])
    ensures Rewritten(StateOf(g, d, ch, own), StateOf(g, d', ch, own[k := cur]), k, file.size, |cur|, offset, part)
  {
    SameAttr(Dir(g, d, ch)[k], Dir(g, d', ch)[k]);
    FileConsistent(g, d', chains', Dir(g, d', ch)[k], file, cur);
    ChangedItem(g, d, d', ch, own, k, cur, file);
    RedescribedLike(Dir(g, d, ch), Dir(g, d', ch), k, file);
    var s, s' := StateOf(g, d, ch, own), StateOf(g, d', ch, own[k := cur]);
    RewrittenFrom(s, s', k, Content(d, Sectors(g, own[k]), FileSize(s.dir[k])), |own[k]|,
                  Content(d', Sectors(g, cur), file.size), |cur|, offset, part);
  }

  lemma RewrittenFrom(s: State, s': State, k: nat, data: seq<Byte>, n: nat, data': seq<Byte>, n': nat, offset: nat,
                      part: seq<Byte>)
    requires OnlyEntry(s, s', k) && k < |s.dir| && k < |s'.dir| && k in s.items && k in s'.items
    requires s.items[k] == File(data, n) && s'.items[k] == File(data', n') && s'.free + n' == s.free + n
    requires AllLike(s.dir, s'.dir) && forall m :: Find(s'.dir, m) == Find(s.dir, m)
    requires offset <= |data| && var m := Min(|data'|, Max(|data|, offset + |part|));
      data'[..m] == Overwrite(data, offset, part)[..m]
    ensures Rewritten(s, s', k, |data'|, n', offset, part)
  {}

  lemma RedescribedLike(dir: seq<Raw>, dir': seq<Raw>, k: nat, file: FatFile)
    requires Redescribed(dir, dir', k, file) && IsShort(dir[k]) && file.attr == dir[k][11]
    ensures AllLike(dir, dir')
  {
    forall j | 0 <= j < |dir| ensures Like(dir[j], dir'[j]) {
      if j == k {
        assert dir'[k][..12] == dir'[k][..11] + [dir'[k][11]] && dir[k][..12] == dir[k][..11] + [dir[k][11]];
        assert dir'[k][0] == dir'[k][..11][0] == dir[k][..11][0];
      } else {
        assert dir'[j] == dir[j];
      }
    }
  }

  lemma SameAttr(r: Raw, r': Raw)
    requires r'[11] == r[11]
    ensures IsDirectory(r') <==> IsDirectory(r)
  {}

  lemma LookupsKept(dir: seq<Raw>, dir': seq<Raw>, k: nat, file: FatFile)
    requires Redescribed(dir, dir', k, file) && WellFormed(dir) && IsShort(dir[k]) && file.attr == dir[k][11]
    ensures WellFormed(dir') && LiveAt(dir', k) && SameLive(dir, dir', k) && forall n :: Find(dir', n) == Find(dir, n)
    ensures IsDirectory(dir'[k]) <==> IsDirectory(dir[k])
  {
    forall n ensures Find(dir', n) == Find(dir, n) { FindRedescribed(dir, dir', k, file, n); }
    FindRedescribed(dir, dir', k, file, []);
  }

  lemma KeptInChains(ch: seq<nat>, own: Owners, k: nat)
    requires Distinct(ch, own) && k in own
    ensures forall j :: j in own && j != k ==> own[j] == [] || own[j] in AllChains(ch, own) - {own[k]} - {ch}
  {
    ItemsInChains(ch, own);
  }

  lemma FileConsistent(g: Geo, d: seq<Block>, chains: set<seq<nat>>, r: Raw, file: FatFile, a: seq<nat>)
    requires Describes(r, file) && FileOk(g, chains, file, a) && !IsDirectory(r)
    requires a == [] ==> file.first == 0 && file.size == 0
    ensures Consistent(g, d, r, a)
  {}

  lemma ItemFile(vol: FatVolume, ch: seq<nat>, own: Owners, k: nat, file: FatFile)
    requires Inv(vol, ch, own) && k in own && k < |Dir(vol.geo, vol.disk, ch)|
    requires Describes(Dir(vol.geo, vol.disk, ch)[k], file)
    ensures FileOk(vol.geo, AllChains(ch, own), file, own[k]) && file.size < 0x1_0000_0000 && file.first < 0x1_0000_0000
    ensures (own[k] == [] ==> file.first == 0 && file.size == 0) && (IsData(vol.geo, file.first) <==> own[k] != [])
  {
    ChainOfItem(vol, ch, own, k);
    SizeFits(Dir(vol.geo, vol.disk, ch)[k]);
  }

  /** Writes to a file. */
  method DoWrite(vol: FatVolume, root: nat, name: seq<Byte>, offset: nat, buf: seq<Byte>, ghost ch: seq<nat>,
                 ghost own: Owners)
    returns (ok: bool, ghost own': Owners)
    requires Inv(vol, ch, own) && root == ch[0] && Legal(Write(name, offset, buf))
    modifies vol
    ensures Inv(vol, ch, own')
    ensures Step(vol.geo, old(Now(vol, ch, own)), Write(name, offset, buf), ok, Now(vol, ch, own'))
  {
    ghost var g, d, chains := vol.geo, vol.disk, AllChains(ch, own);
    FoundIsOwned(vol, ch, own, name);
    var dir := ReadDirectory(vol, root, chains, ch);
    var k, _ := FindEntry(dir, name);
    ghost var s := Now(vol, ch, own);
    if k < 0 {
      WriteStep(g, s, name, offset, buf, false, s, k);
      return false, own;
    }
    ok, own' := WriteAt(vol, root, name, offset, buf, dir, k, ch, own);
  }

  /** Writes to the file of entry `k`. */
  method WriteAt(vol: FatVolume, root: nat, ghost name: seq<Byte>, offset: nat, buf: seq<Byte>, dir: seq<Raw>, k: nat,
                 ghost ch: seq<nat>, ghost own: Owners)
    returns (ok: bool, ghost own': Owners)
    requires Inv(vol, ch, own) && root == ch[0] && Legal(Write(name, offset, buf))
    requires dir == Dir(vol.geo, vol.disk, ch) && k == Find(dir, name) && k < |dir| && k in own
    requires k in Now(vol, ch, own).items
    requires Now(vol, ch, own).items[k] == ItemOf(vol.geo, vol.disk, dir[k], own[k])
    modifies vol
    ensures Inv(vol, ch, own')
    ensures Step(vol.geo, old(Now(vol, ch, own)), Write(name, offset, buf), ok, Now(vol, ch, own'))
  {
    ghost var g, d, chains, s := vol.geo, vol.disk, AllChains(ch, own), Now(vol, ch, own);
    var file := FileFromEntry(vol, root, dir, k, chains, ch);
    ItemFile(vol, ch, own, k, file);
    var file', written;
    ghost var cur;
    ok, file', written, cur := WriteFileRange(vol, file, offset, buf, chains, own[k], ch, k);
    own' := own[k := cur];
    ChainReplaced(Fat(g, d), ch, own, k, cur);
    WroteStep(g, d, vol.disk, ch, own, name, k, cur, file, file', offset, buf, written, ok);
  }

  /** A write to entry `k` is a step. */
  lemma WroteStep(g: Geo, d: seq<Block>, d': seq<Block>, ch: seq<nat>, own: Owners, name: seq<Byte>, k: nat,
                  cur: seq<nat>, file: FatFile, file': FatFile, offset: nat, buf: seq<Byte>, written: nat, ok: bool)
    requires Backed(g, d) && Backed(g, d') && Forest(Fat(g, d), AllChains(ch, own)) && Distinct(ch, own) && ch != []
    requires k in own && k == Find(Dir(g, d, ch), name)
    requires WellFormed(Dir(g, d, ch)) && Items(g, d, Dir(g, d, ch), own) && EntryOf(g, d, ch, k, file) && file.lba != 0
    requires RangeWritten(g, d, d', AllChains(ch, own), own[k], cur, ch, k, file, file', offset,
                          PartAfter(g, FreeClusters(g, d), file, |own[k]|, offset, buf), ok)
    requires WriteCounts(g, FreeClusters(g, d), file, |own[k]|, offset, |buf|, ok, file'.size, |cur|, written)
    requires FreeClusters(g, d') + |cur| == FreeClusters(g, d) + |own[k]|
    requires (IsData(g, file.first) <==> own[k] != []) && (own[k] == [] ==> file.first == 0 && file.size == 0)
    ensures WellFormed(Dir(g, d', ch)) && Items(g, d', Dir(g, d', ch), own[k := cur])
    ensures Step(g, StateOf(g, d, ch, own), Write(name, offset, buf), ok, StateOf(g, d', ch, own[k := cur]))
  {
    var s, s' := StateOf(g, d, ch, own), StateOf(g, d', ch, own[k := cur]);
    assert LiveAt(Dir(g, d, ch), k);
    LengthKept(g, s.free, file, |own[k]|, offset, |buf|, ok, file'.size, |cur|, written);
    WroteItem(g, d, d', ch, own, k, cur, file, file', offset, PartAfter(g, s.free, file, |own[k]|, offset, buf), ok);
    WroteCounted(g, s, s', k, s.dir[k], file, own[k], d, offset, buf, ok, file'.size, |cur|, written);
    WriteStep(g, s, name, offset, buf, ok, s', k);
  }

  /** A file that has no cluster after a write has no bytes. */
  lemma LengthKept(g: Geo, free: nat, file: FatFile, len: nat, offset: nat, n: nat, ok: bool, size: nat, len': nat,
                   written: nat)
    requires WriteCounts(g, free, file, len, offset, n, ok, size, len', written) && (len == 0 ==> file.size == 0)
    ensures ok && len' == 0 ==> size == 0
  {
    if ok && n > 0 {
      NeedsOne(g, offset, n, len + free);
    }
  }

  /** The numbers of a write, in terms of what a caller sees. */
  lemma WroteCounted(g: Geo, s: State, s': State, k: nat, r: Raw, file: FatFile, a: seq<nat>, d: seq<Block>,
                     offset: nat, buf: seq<Byte>, ok: bool, size: nat, len: nat, written: nat)
    requires GeoOk(g) && k < |s.dir| && k in s.items && s.items[k] == ItemOf(g, d, r, a) && Describes(r, file)
    requires file.lba != 0
    requires (IsData(g, file.first) <==> a != []) && (a == [] ==> file.first == 0 && file.size == 0)
    requires WriteCounts(g, s.free, file, |a|, offset, |buf|, ok, size, len, written) && (!ok ==> size == file.size)
    requires if IsDirectory(r) || offset > file.size then s' == s
             else Rewritten(s, s', k, size, len, offset, PartAfter(g, s.free, file, |a|, offset, buf))
    ensures ok <==> WriteFits(g, s, k, offset, |buf|)
    ensures if IsFileAt(s, k) then Wrote(g, s, s', k, offset, buf, ok) else s' == s
  {
    FitsIs(g, s, k, r, file, a, d, offset, buf);
  }

  /** A write to entry `k`, successful or not. */
  lemma WroteItem(g: Geo, d: seq<Block>, d': seq<Block>, ch: seq<nat>, own: Owners, k: nat, cur: seq<nat>,
                  file: FatFile, file': FatFile, offset: nat, part: seq<Byte>, ok: bool)
    requires Backed(g, d) && Backed(g, d') && Forest(Fat(g, d), AllChains(ch, own)) && Distinct(ch, own) && ch != []
    requires k in own
    requires WellFormed(Dir(g, d, ch)) && Items(g, d, Dir(g, d, ch), own) && EntryOf(g, d, ch, k, file) && file.lba != 0
    requires RangeWritten(g, d, d', AllChains(ch, own), own[k], cur, ch, k, file, file', offset, part, ok)
    requires FreeClusters(g, d') + |cur| == FreeClusters(g, d) + |own[k]|
    requires own[k] == [] ==> file.first == 0 && file.size == 0
    requires ok && cur == [] ==> file'.size == 0
    ensures WellFormed(Dir(g, d', ch)) && Items(g, d', Dir(g, d', ch), own[k := cur])
    ensures var s, s' := StateOf(g, d, ch, own), StateOf(g, d', ch, own[k := cur]);
            if IsDirectory(Dir(g, d, ch)[k]) || offset > file.size then s' == s
            else Rewritten(s, s', k, file'.size, |cur|, offset, part)
  {
    if IsDirectory(Dir(g, d, ch)[k]) || offset > file.size {
      assert own[k := own[k]] == own;
    } else {
      assert LiveAt(Dir(g, d, ch), k);
      assert Others(AllChains(ch, own), own[k], ch, file.lba) == AllChains(ch, own) - {own[k]} - {ch};
      RewrittenItem(g, d, d', ch, own, k, cur, file', Regrown(AllChains(ch, own), own[k], cur), offset, part);
    }
  }

  /** What a write will do, in terms of what a caller sees. */
  lemma FitsIs(g: Geo, s: State, k: nat, r: Raw, file: FatFile, a: seq<nat>, d: seq<Block>, offset: nat, buf: seq<Byte>)
    requires GeoOk(g) && k < |s.dir| && k in s.items && s.items[k] == ItemOf(g, d, r, a) && Describes(r, file)
    requires file.lba != 0
    requires (IsData(g, file.first) <==> a != []) && (a == [] ==> file.first == 0 && file.size == 0)
    ensures CanWrite(g, s.free, file, |a|, offset, |buf|) <==> WriteFits(g, s, k, offset, |buf|)
    ensures IsFileAt(s, k) ==>
      var f := AsFile(g, s.items[k]);
      && f.size == file.size && s.items[k].clusters == |a|
      && NewSize(g, s.free, f, |a|, offset, |buf|) == NewSize(g, s.free, file, |a|, offset, |buf|)
      && LengthAfter(g, s.free, f, |a|, offset, |buf|) == LengthAfter(g, s.free, file, |a|, offset, |buf|)
      && PartAfter(g, s.free, f, |a|, offset, buf) == PartAfter(g, s.free, file, |a|, offset, buf)
  {
    if buf != [] && Enough(g, offset, |buf|, |a| + s.free) {
      NeedsOne(g, offset, |buf|, |a| + s.free);
    }
  }

  /** Empties a file. */
  method DoTruncate(vol: FatVolume, root: nat, name: seq<Byte>, ghost ch: seq<nat>, ghost own: Owners)
    returns (ok: bool)
    requires Inv(vol, ch, own) && root == ch[0]
    modifies vol
    ensures Inv(vol, ch, own) && Step(vol.geo, old(Now(vol, ch, own)), Truncate(name), ok, Now(vol, ch, own))
  {
    ghost var g, d, chains := vol.geo, vol.disk, AllChains(ch, own);
    FoundIsOwned(vol, ch, own, name);
    var dir := ReadDirectory(vol, root, chains, ch);
    var k, _ := FindEntry(dir, name);
    ghost var s := Now(vol, ch, own);
    if k < 0 {
      TruncateStep(g, s, name, false, s, k);
      return false;
    }
    var file := FileFromEntry(vol, root, dir, k, chains, ch);
    ItemFile(vol, ch, own, k, file);
    var file';
    ok, file' := TruncateFile(vol, file, chains, own[k], ch, k);
    if ok {
      TruncatedItem(g, d, vol.disk, ch, own, k, file', chains);
    }
    TruncateStep(g, s, name, ok, Now(vol, ch, own), k);
  }

  lemma TruncatedItem(g: Geo, d: seq<Block>, d': seq<Block>, ch: seq<nat>, own: Owners, k: nat, file: FatFile,
                      chains': set<seq<nat>>)
    requires Backed(g, d) && Backed(g, d') && Forest(Fat(g, d), AllChains(ch, own)) && Distinct(ch, own) && ch != []
    requires k in own
    requires WellFormed(Dir(g, d, ch)) && Items(g, d, Dir(g, d, ch), own) && k < |Dir(g, d, ch)|
    requires !IsDirectory(Dir(g, d, ch)[k])
    requires Redescribed(Dir(g, d, ch), Dir(g, d', ch), k, file) && file.attr == Dir(g, d, ch)[k][11] && file.size == 0
    requires FileOk(g, chains', file, own[k]) && (own[k] == [] ==> file.first == 0)
    requires ChainsKept(g, d, d', AllChains(ch, own) - {ch}) && FreeClusters(g, d') == FreeClusters(g, d)
    ensures WellFormed(Dir(g, d', ch)) && Items(g, d', Dir(g, d', ch), own)
    ensures Rewritten(StateOf(g, d, ch, own), StateOf(g, d', ch, own), k, 0, |own[k]|, 0, [])
  {
    assert own[k := own[k]] == own;
    var chains := AllChains(ch, own);
    FewerKept(g, d, d', chains - {ch}, chains - {own[k]} - {ch});
    RewrittenItem(g, d, d', ch, own, k, own[k], file, chains', 0, []);
  }

  lemma FewerKept(g: Geo, d: seq<Block>, d': seq<Block>, kept: set<seq<nat>>, fewer: set<seq<nat>>)
    requires ChainsKept(g, d, d', kept) && fewer <= kept
    ensures ChainsKept(g, d, d', fewer)
  {
    forall a, x | Has(fewer, a) && x in Sectors(g, a) && x < |d| ensures d'[x] == d[x] { assert Has(kept, a); }
  }

  // ----- runs -----

  method Apply(vol: FatVolume, root: nat, op: Op, ghost ch: seq<nat>, ghost own: Owners)
    returns (ok: bool, ghost ch': seq<nat>, ghost own': Owners)
    requires Inv(vol, ch, own) && root == ch[0] && Legal(op)
    modifies vol
    ensures Inv(vol, ch', own') && root == ch'[0] && Step(vol.geo, old(Now(vol, ch, own)), op, ok, Now(vol, ch', own'))
  {
    ch', own' := ch, own;
    match op {
      case Create(name) => ok, ch', own' := DoCreate(vol, root, name, ch, own);
      case Mkdir(name) => ok, ch', own' := DoMkdir(vol, root, name, ch, own);
      case Write(name, offset, buf) => ok, own' := DoWrite(vol, root, name, offset, buf, ch, own);
      case Truncate(name) => ok := DoTruncate(vol, root, name, ch, own);
      case Unlink(name) => ok, own' := DoUnlink(vol, root, name, ch, own);
      case Rmdir(name) => ok, own' := DoRmdir(vol, root, name, ch, own);
    }
  }

  /** The steps of a run on a volume. */
  ghost function Steps(g: Geo): (State, Op, bool, State) -> bool { (s, op, ok, s') => Step(g, s, op, ok, s') }

  /** Every sequence of operations on the directory, successful or not: the table holds
      the directory's chain and its entries' chains and nothing else, no two of them
      meet, and each operation succeeds exactly when it can and does what it should. */
  method Run(vol: FatVolume, root: nat, ops: seq<Op>, ghost ch: seq<nat>, ghost own: Owners)
    returns (done: seq<bool>, ghost trace: seq<State>, ghost ch': seq<nat>, ghost own': Owners)
    requires Inv(vol, ch, own) && root == ch[0] && forall i :: 0 <= i < |ops| ==> Legal(ops[i])
    modifies vol
    ensures Inv(vol, ch', own') && root == ch'[0]
    ensures Ran(Steps(vol.geo), ops, done, trace) && |done| == |ops| && trace[0] == old(Now(vol, ch, own))
    ensures trace[|ops|] == Now(vol, ch', own')
  {
    ch', own' := ch, own;
    done, trace := [], [Now(vol, ch, own)];
    for n := 0 to |ops|
      invariant Inv(vol, ch', own') && root == ch'[0]
      invariant Ran(Steps(vol.geo), ops, done, trace) && |done| == n && trace[0] == old(Now(vol, ch, own))
      invariant trace[n] == Now(vol, ch', own')
    {
      var ok;
      ok, ch', own' := Apply(vol, root, ops[n], ch', own');
      RanOneMore(Steps(vol.geo), ops, done, trace, ok, Now(vol, ch', own'));
      done, trace := done + [ok], trace + [Now(vol, ch', own')];
    }
  }

  /** At every moment each cluster is free or in one of the chains: none is lost. */
  lemma ClustersConserved(vol: FatVolume, ch: seq<nat>, own: Owners)
    requires Inv(vol, ch, own)
    ensures Now(vol, ch, own).free + TotalLength(AllChains(ch, own)) == vol.geo.clusters
  {
    ForestCounts(Fat(vol.geo, vol.disk), AllChains(ch, own));
  }

  /** A volume whose only chain is that of a directory without entries is a start. */
  lemma EmptyStart(vol: FatVolume, ch: seq<nat>)
    requires Sound(vol, {ch}) && ch != [] && forall k :: 0 <= k < |Dir(vol.geo, vol.disk, ch)| ==>
      IsEnd(Dir(vol.geo, vol.disk, ch)[k])
    ensures Inv(vol, ch, map[]) && Now(vol, ch, map[]).items == map[]
  {
    assert AllChains(ch, map[]) == {ch};
  }
}
