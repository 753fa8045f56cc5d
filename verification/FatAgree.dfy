/** What a run on a FAT32 directory is determined by: two runs of the same operations
    from alike states succeed and fail alike, whatever clusters were chosen. */
module FatAgree {
  import opened Bitmap
  import opened FatTable
  import opened FatWrite
  import opened FatNames
  import opened FatDirs
  import opened FatAlias
  import opened FatEntries
  import opened FatCreate
  import opened FatUpdate
  import opened FatDelete
  import opened FatRun
  import opened Runs

  // ----- alike directories -----

  lemma {:induction false} StatesLike(a: seq<Raw>, b: seq<Raw>, i: nat)
    requires AllLike(a, b) && i <= |a|
    ensures StateAt(b, i) == StateAt(a, i)
  {
    if i > 0 {
      StatesLike(a, b, i - 1);
      assert Like(a[i - 1], b[i - 1]);
      SameKind(a[i - 1], b[i - 1]);
    }
  }

  lemma SameKind(r: Raw, r': Raw)
    requires Like(r, r')
    ensures (IsEnd(r') <==> IsEnd(r)) && (IsDeleted(r') <==> IsDeleted(r)) && (IsShort(r') <==> IsShort(r))
    ensures !IsFree(r) ==> (IsLong(r') <==> IsLong(r)) && r'[..11] == r[..11] && forall i :: 0 <= i < 12 ==>
      r'[i] == r[i]
  {
    if !IsFree(r) {
      assert forall i :: 0 <= i < 12 ==> r'[i] == r'[..12][i] == r[..12][i] == r[i];
    }
  }

  lemma SameNames(r: Raw, r': Raw, s: LfnState, name: seq<Byte>)
    requires Like(r, r') && !IsFree(r) && |s.name| == NAME_SIZE
    ensures MatchesName(r', s, name) <==> MatchesName(r, s, name)
    ensures FileName(r', s) == FileName(r, s) && LongCount(r', s) == LongCount(r, s)
  {
    SameKind(r, r');
    ChecksumKept(r, r', 11);
    SameBlanks(r, r', 8);
    SameBlanks(r[8..], r'[8..], 3);
  }

  /** Alike directories give the same lookups. */
  lemma {:induction false} FindLike(a: seq<Raw>, b: seq<Raw>, i: nat, name: seq<Byte>)
    requires AllLike(a, b) && i <= |a|
    ensures FindFrom(b, i, StateAt(b, i), name) == FindFrom(a, i, StateAt(a, i), name)
    decreases |a| - i
  {
    StatesLike(a, b, i);
    if i < |a| {
      assert Like(a[i], b[i]);
      SameKind(a[i], b[i]);
      if !IsFree(a[i]) {
        SameNames(a[i], b[i], StateAt(a, i), name);
      }
      FindLike(a, b, i + 1, name);
    }
  }

  /** They have the same short names. */
  lemma {:induction false} ShortsLike(a: seq<Raw>, b: seq<Raw>)
    requires AllLike(a, b)
    ensures ShortList(b) == ShortList(a)
    decreases |a|
  {
    if a != [] {
      assert Like(a[0], b[0]);
      SameKind(a[0], b[0]);
      assert forall j {:trigger Like(a[1..][j], b[1..][j])} :: 0 <= j < |a| - 1 ==> Like(a[j + 1], b[j + 1]);
      ShortsLike(a[1..], b[1..]);
    }
  }

  /** They have room in the same places. */
  lemma FreeLike(a: seq<Raw>, b: seq<Raw>, at: nat, n: nat)
    requires AllLike(a, b)
    ensures AllFree(b, at, n) <==> AllFree(a, at, n)
  {
    forall i | 0 <= i < |a| ensures IsFree(b[i]) <==> IsFree(a[i]) {
      assert Like(a[i], b[i]);
      SameKind(a[i], b[i]);
    }
  }

  lemma RoomLike(a: seq<Raw>, b: seq<Raw>, n: nat)
    requires AllLike(a, b)
    ensures RoomFor(b, n) <==> RoomFor(a, n)
  {
    forall at: nat ensures AllFree(b, at, n) <==> AllFree(a, at, n) { FreeLike(a, b, at, n); }
  }

  lemma FirstRoomLike(a: seq<Raw>, b: seq<Raw>, at: nat, n: nat)
    requires AllLike(a, b)
    ensures FirstRoom(b, at, n) <==> FirstRoom(a, at, n)
  {
    forall x: nat ensures AllFree(b, x, n) <==> AllFree(a, x, n) { FreeLike(a, b, x, n); }
  }

  lemma ExtendedLike(a: seq<Raw>, b: seq<Raw>, n: nat)
    requires AllLike(a, b)
    ensures AllLike(Extended(a, n), Extended(b, n))
  {
    var x, y := Extended(a, n), Extended(b, n);
    forall j | 0 <= j < |x| ensures Like(x[j], y[j]) { assert j < |a| ==> Like(a[j], b[j]); }
  }

  /** Whether a name can be given, and which alias, is the same. */
  lemma NameableLike(a: seq<Raw>, b: seq<Raw>, name: seq<Byte>)
    requires AllLike(a, b)
    ensures Nameable(b, name) <==> Nameable(a, name)
  {
    FindLike(a, b, 0, name);
    ShortsLike(a, b);
    assert forall s: nat :: Unused(b, name, s) <==> Unused(a, name, s);
  }

  lemma FirstUnusedLike(a: seq<Raw>, b: seq<Raw>, name: seq<Byte>, s: nat)
    requires AllLike(a, b)
    ensures FirstUnused(b, name, s) <==> FirstUnused(a, name, s)
  {
    ShortsLike(a, b);
    assert forall t: nat :: Unused(b, name, t) <==> Unused(a, name, t);
  }

  /** Creating is possible in both or in neither, and makes both grow or neither. */
  lemma CreateLike(g: Geo, a: seq<Raw>, b: seq<Raw>, free: nat, name: seq<Byte>)
    requires AllLike(a, b)
    ensures CanCreate(g, free, b, name) <==> CanCreate(g, free, a, name)
    ensures Grows(free, b, name) <==> Grows(free, a, name)
  {
    NameableLike(a, b, name);
    RoomLike(a, b, EntryCount(name));
    ExtendedLike(a, b, 16 * g.spc);
    RoomLike(Extended(a, 16 * g.spc), Extended(b, 16 * g.spc), EntryCount(name));
  }

  /** The entries of a name are the same but for the cluster. */
  lemma EntriesLike(x: seq<Raw>, y: seq<Raw>, name: seq<Byte>, raw: seq<Byte>, attr: Byte, c: nat, c': nat, n: nat,
                    i: nat)
    requires AreEntries(x, name, raw, attr, c, n) && AreEntries(y, name, raw, attr, c', n) && i <= n
    requires (!NeedsLong(name) ==> n == 0) && raw[0] != 0 && raw[0] != 0xE5 && attr != ATTR_LFN
    requires attr / ATTR_VOLUME % 2 == 0
    ensures Like(x[i], y[i])
  {
    if i < n {
      assert IsPart(x[..n][i], name, n, n - i, Checksum(raw, 11))
        && IsPart(y[..n][i], name, n, n - i, Checksum(raw, 11));
      OnePart(x[i], y[i], name, n, n - i, Checksum(raw, 11));
    } else {
      NewShort(raw, attr, c);
      NewShort(raw, attr, c');
      assert x[n][..12] == raw + [attr] && y[n][..12] == raw + [attr];
    }
  }

  lemma PlacedAsLike(a1: seq<Raw>, b1: seq<Raw>, a': seq<Raw>, b': seq<Raw>, name: seq<Byte>, raw: seq<Byte>,
                     attr: Byte, c: nat, c': nat, at: nat, x: seq<Raw>, y: seq<Raw>)
    requires AllLike(a1, b1) && attr != ATTR_LFN && attr / ATTR_VOLUME % 2 == 0
    requires |raw| == 11 && raw[0] != 0 && raw[0] != 0xE5
    requires AreEntries(x, name, raw, attr, c, EntryCount(name) - 1) && PartlyCreated(a1, a', at, x, EntryCount(name))
    requires AreEntries(y, name, raw, attr, c', EntryCount(name) - 1) && PartlyCreated(b1, b', at, y, EntryCount(name))
    ensures AllLike(a', b')
  {
    var n := EntryCount(name);
    forall j | 0 <= j < |a'| ensures Like(a'[j], b'[j]) {
      if at <= j < at + n {
        EntriesLike(x, y, name, raw, attr, c, c', n - 1, j - at);
        assert a'[j] == x[j - at] && b'[j] == y[j - at];
      } else {
        assert Like(a1[j], b1[j]);
        assert a'[j] == a1[j] && b'[j] == b1[j];
      }
    }
  }

  /** There is one first alias and one first room. */
  lemma OneFirst(a: seq<Raw>, name: seq<Byte>, s: nat, t: nat, n: nat, i: nat, j: nat)
    ensures FirstUnused(a, name, s) && FirstUnused(a, name, t) ==> s == t
    ensures FirstRoom(a, i, n) && FirstRoom(a, j, n) ==> i == j
  {
    assert Unused(a, name, s) == Unused(a, name, s) && Unused(a, name, t) == Unused(a, name, t);
    assert AllFree(a, i, n) == AllFree(a, i, n) && AllFree(a, j, n) == AllFree(a, j, n);
  }

  /** Entries placed in alike directories leave them alike, and lie at the same index. */
  lemma PlacedLike(a: seq<Raw>, b: seq<Raw>, a1: seq<Raw>, b1: seq<Raw>, a': seq<Raw>, b': seq<Raw>, name: seq<Byte>,
                   attr: Byte, c: nat, c': nat, i: nat, i': nat)
    requires AllLike(a, b) && AllLike(a1, b1) && attr != ATTR_LFN && attr / ATTR_VOLUME % 2 == 0
    requires Placed(a, a1, a', name, attr, c, i) && Placed(b, b1, b', name, attr, c', i')
    ensures i' == i && AllLike(a', b')
  {
    var n := EntryCount(name);
    var s: nat, x: seq<Raw> :| PlacedAs(a, a1, a', name, attr, c, i, s, x);
    var t: nat, y: seq<Raw> :| PlacedAs(b, b1, b', name, attr, c', i', t, y);
    FirstUnusedLike(a, b, name, t);
    FirstRoomLike(a1, b1, i' + 1 - n, n);
    OneFirst(a, name, s, t, n, 0, 0);
    OneFirst(a1, name, 0, 0, n, i + 1 - n, i' + 1 - n);
    AliasSafe(name, s);
    PlacedAsLike(a1, b1, a', b', name, Alias(name, s), attr, c, c', i + 1 - n, x, y);
  }

  /** Deleting the same entry leaves alike directories alike. */
  lemma DeletedLike(a: seq<Raw>, b: seq<Raw>, a': seq<Raw>, b': seq<Raw>, k: nat)
    requires AllLike(a, b) && Deleted(a, a', k) && Deleted(b, b', k) && IsShort(a[k])
    ensures AllLike(a', b')
  {
    StatesLike(a, b, k);
    assert Like(a[k], b[k]);
    SameNames(a[k], b[k], StateAt(a, k), []);
    var n := LongCount(a[k], StateAt(a, k)) + 1;
    forall j | 0 <= j < |a'| ensures Like(a'[j], b'[j]) {
      assert Like(a[j], b[j]);
      if k - n < j <= k {
        assert a'[j] == DeletedEntry(a[j], j == k) && b'[j] == DeletedEntry(b[j], j == k);
      } else {
        assert a'[j] == a[j] && b'[j] == b[j];
      }
    }
  }

  lemma LikeTwice(a: seq<Raw>, b: seq<Raw>, a': seq<Raw>, b': seq<Raw>)
    requires AllLike(a, b) && AllLike(a, a') && AllLike(b, b')
    ensures AllLike(a', b')
  {
    forall j | 0 <= j < |a'| ensures Like(a'[j], b'[j]) {
      assert Like(a[j], b[j]) && Like(a[j], a'[j]) && Like(b[j], b'[j]);
      SameKind(a[j], a'[j]);
      SameKind(b[j], b'[j]);
      SameKind(a[j], b[j]);
    }
  }

  /** Two items no operation can tell apart by whether it succeeds; if `exact`, they have
      the same contents. */
  ghost predicate ItemAlike(x: Item, y: Item, exact: bool) {
    && x.clusters == y.clusters && (x.File? <==> y.File?)
    && (x.File? ==> |x.data| == |y.data| && (exact ==> x.data == y.data))
    && (x.Sub? ==> (OnlyDots(x.entries) <==> OnlyDots(y.entries)))
  }

  ghost predicate Alike(s: State, t: State, exact: bool) {
    && AllLike(s.dir, t.dir) && s.free == t.free
    && (forall k: nat {:trigger k in s.items} {:trigger k in t.items} :: k in s.items <==> k in t.items)
    && forall k: nat {:trigger ItemAlike(s.items[k], t.items[k], exact)} :: k in s.items && k in t.items ==>
       ItemAlike(s.items[k], t.items[k], exact)
  }

  /** A write into the last sector, which may lay bare what the chain held before. */
  ghost predicate Wraps(op: Op) {
    op.Write? && LAST_SECTOR < op.offset + |op.buf| < 0x1_0000_0000
  }

  /** Alike states agree on whether an operation succeeds. */
  lemma SucceedsAlike(g: Geo, s: State, t: State, op: Op, exact: bool)
    requires Alike(s, t, exact)
    ensures Find(t.dir, op.name) == Find(s.dir, op.name)
    ensures Succeeds(g, t, op) <==> Succeeds(g, s, op)
    ensures op.Create? ==> (FileGrows(t, op.name) <==> FileGrows(s, op.name))
    ensures op.Mkdir? ==> (DirGrows(t.free, t.dir, op.name) <==> DirGrows(s.free, s.dir, op.name))
  {
    FindLike(s.dir, t.dir, 0, op.name);
    var k := Find(s.dir, op.name);
    if op.Create? {
      CreateLike(g, s.dir, t.dir, s.free, op.name);
    } else if op.Mkdir? {
      if s.free > 0 {
        CreateLike(g, s.dir, t.dir, s.free - 1, op.name);
      }
    } else if k >= 0 && k in s.items {
      assert ItemAlike(s.items[k], t.items[k], exact);
    }
  }

  // ----- alike steps -----

  /** Changing item `k` of both in the same way leaves the items alike. */
  lemma ItemsAlike(s: State, t: State, s': State, t': State, k: nat, exact: bool, exact': bool)
    requires Alike(s, t, exact) && (exact' ==> exact)
    requires SameElse(s.items, s'.items, k) && SameElse(t.items, t'.items, k)
    requires AllLike(s'.dir, t'.dir) && s'.free == t'.free
    requires (k in s'.items <==> k in t'.items) && (k in s'.items ==> ItemAlike(s'.items[k], t'.items[k], exact'))
    ensures Alike(s', t', exact')
  {
    forall j: nat ensures j in s'.items <==> j in t'.items {
      assert j != k ==> (j in s.items <==> j in s'.items) && (j in t.items <==> j in t'.items);
      assert j in s.items <==> j in t.items;
    }
    forall j: nat | j in s'.items && j in t'.items ensures ItemAlike(s'.items[j], t'.items[j], exact') {
      if j != k {
        assert j in s.items && j in t.items && s'.items[j] == s.items[j] && t'.items[j] == t.items[j];
        assert ItemAlike(s.items[j], t.items[j], exact);
      }
    }
  }

  lemma EnteredAlike(s: State, t: State, now: seq<Raw>, now': seq<Raw>, s': State, t': State, name: seq<Byte>,
                     attr: Byte, i: nat, i': nat, x: Item, y: Item, exact: bool)
    requires Alike(s, t, exact) && AllLike(now, now') && s'.free == t'.free && ItemAlike(x, y, exact)
    requires Entered(s, now, s', name, attr, i, x) && Entered(t, now', t', name, attr, i', y)
    requires attr != ATTR_LFN && attr / ATTR_VOLUME % 2 == 0
    ensures Alike(s', t', exact)
  {
    var c: nat :| EntryCreated(s.dir, s'.dir, name, attr, c, i) && Placed(s.dir, now, s'.dir, name, attr, c, i);
    var c': nat :| EntryCreated(t.dir, t'.dir, name, attr, c', i') && Placed(t.dir, now', t'.dir, name, attr, c', i');
    PlacedLike(s.dir, t.dir, now, now', s'.dir, t'.dir, name, attr, c, c', i, i');
    ItemsAlike(s, t, s', t', i, exact, exact);
  }

  lemma GoneAlike(s: State, t: State, s': State, t': State, k: nat, exact: bool)
    requires Alike(s, t, exact) && Gone(s, s', k) && Gone(t, t', k) && LiveAt(s.dir, k)
    ensures Alike(s', t', exact)
  {
    DeletedLike(s.dir, t.dir, s'.dir, t'.dir, k);
    assert ItemAlike(s.items[k], t.items[k], exact);
    ItemsAlike(s, t, s', t', k, exact, exact);
  }

  lemma RewrittenAlike(s: State, t: State, s': State, t': State, k: nat, size: nat, clusters: nat, offset: nat,
                       part: seq<Byte>, exact: bool, exact': bool)
    requires Alike(s, t, exact)
    requires exact' ==> exact && IsFileAt(s, k) && size <= Max(|s.items[k].data|, offset + |part|)
    requires Rewritten(s, s', k, size, clusters, offset, part) && Rewritten(t, t', k, size, clusters, offset, part)
    ensures Alike(s', t', exact')
  {
    assert ItemAlike(s.items[k], t.items[k], exact);
    LikeTwice(s.dir, t.dir, s'.dir, t'.dir);
    ItemsAlike(s, t, s', t', k, exact, exact');
  }

  /** A write that does not reach into the last sector lays nothing bare. */
  lemma NothingBare(g: Geo, s: State, k: int, offset: nat, buf: seq<Byte>, ok: bool)
    requires GeoOk(g) && IsFileAt(s, k) && offset <= |s.items[k].data|
    requires (ok <==> WriteFits(g, s, k, offset, |buf|)) && (s.items[k].clusters == 0 ==> s.items[k].data == [])
    requires !(LAST_SECTOR < offset + |buf| < 0x1_0000_0000)
    ensures var file, n := AsFile(g, s.items[k]), s.items[k].clusters;
            (if ok then NewSize(g, s.free, file, n, offset, |buf|) else file.size)
              <= Max(file.size, offset + |PartAfter(g, s.free, file, n, offset, buf)|)
  {
    var file, n := AsFile(g, s.items[k]), s.items[k].clusters;
    if ok && buf != [] {
      NeedsOne(g, offset, |buf|, n + s.free);
      assert CanWrite(g, s.free, file, n, offset, |buf|);
      WrittenRight(g, s.free, file, n, offset, buf);
    }
  }

  lemma WroteAlike(g: Geo, s: State, t: State, s': State, t': State, k: nat, offset: nat, buf: seq<Byte>, ok: bool,
                   exact: bool)
    requires GeoOk(g) && Alike(s, t, exact) && (ok <==> WriteFits(g, s, k, offset, |buf|))
    requires Wrote(g, s, s', k, offset, buf, ok) && Wrote(g, t, t', k, offset, buf, ok)
    ensures Alike(s', t', exact && !(LAST_SECTOR < offset + |buf| < 0x1_0000_0000))
  {
    var exact' := exact && !(LAST_SECTOR < offset + |buf| < 0x1_0000_0000);
    assert ItemAlike(s.items[k], t.items[k], exact);
    var file, n := AsFile(g, s.items[k]), s.items[k].clusters;
    assert AsFile(g, t.items[k]) == file && t.items[k].clusters == n;
    if offset > file.size {
      LessExact(s, t, exact, exact');
    } else {
      if exact' {
        NothingBare(g, s, k, offset, buf, ok);
      }
      RewrittenAlike(s, t, s', t', k, if ok then NewSize(g, s.free, file, n, offset, |buf|) else file.size,
                     LengthAfter(g, s.free, file, n, offset, |buf|), offset,
                     PartAfter(g, s.free, file, n, offset, buf), exact, exact');
    }
  }

  lemma LessExact(s: State, t: State, exact: bool, exact': bool)
    requires Alike(s, t, exact) && (exact' ==> exact)
    ensures Alike(s, t, exact')
  {
    forall k: nat | k in s.items && k in t.items ensures ItemAlike(s.items[k], t.items[k], exact') {
      assert ItemAlike(s.items[k], t.items[k], exact);
    }
  }

  lemma NotEnteredAlike(s: State, t: State, now: seq<Raw>, now': seq<Raw>, s': State, t': State, exact: bool)
    requires Alike(s, t, exact) && AllLike(now, now') && s'.free == t'.free
    requires NotEntered(s, now, s') && NotEntered(t, now', t')
    ensures Alike(s', t', exact)
  {
    forall k: nat | k in s'.items && k in t'.items ensures ItemAlike(s'.items[k], t'.items[k], exact) {
      assert ItemAlike(s.items[k], t.items[k], exact);
    }
  }

  lemma LengthenedLike(g: Geo, a: seq<Raw>, b: seq<Raw>, more: bool)
    requires AllLike(a, b)
    ensures AllLike(Lengthened(g, a, more), Lengthened(g, b, more))
  {
    ExtendedLike(a, b, 16 * g.spc);
  }

  /** Creating files in alike states. */
  lemma CreatedAlike(g: Geo, s: State, t: State, name: seq<Byte>, ok: bool, s': State, t': State, more: bool,
                     exact: bool)
    requires Alike(s, t, exact) && CreateDone(g, s, name, ok, s', more) && CreateDone(g, t, name, ok, t', more)
    ensures Alike(s', t', exact)
  {
    var now, now' := Lengthened(g, s.dir, more), Lengthened(g, t.dir, more);
    LengthenedLike(g, s.dir, t.dir, more);
    if ok {
      var i :| Entered(s, now, s', name, 0, i, File([], 0));
      var i' :| Entered(t, now', t', name, 0, i', File([], 0));
      EnteredAlike(s, t, now, now', s', t', name, 0, i, i', File([], 0), File([], 0), exact);
    } else {
      NotEnteredAlike(s, t, now, now', s', t', exact);
    }
  }

  lemma MadeAtAlike(s: State, t: State, now: seq<Raw>, now': seq<Raw>, s': State, t': State, name: seq<Byte>, i: nat,
                    i': nat, e: seq<Raw>, e': seq<Raw>, exact: bool)
    requires Alike(s, t, exact) && AllLike(now, now') && s'.free == t'.free
    requires MadeAt(s, now, s', name, i, e) && MadeAt(t, now', t', name, i', e')
    ensures Alike(s', t', exact)
  {
    EnteredAlike(s, t, now, now', s', t', name, ATTR_DIRECTORY, i, i', Sub(e, 1), Sub(e', 1), exact);
  }

  /** Making directories in alike states. */
  lemma MadeAlike(g: Geo, s: State, t: State, name: seq<Byte>, ok: bool, s': State, t': State, more: bool, exact: bool)
    requires Alike(s, t, exact) && MkdirDone(g, s, name, ok, s', more) && MkdirDone(g, t, name, ok, t', more)
    ensures Alike(s', t', exact)
  {
    var now, now' := Lengthened(g, s.dir, more), Lengthened(g, t.dir, more);
    LengthenedLike(g, s.dir, t.dir, more);
    if ok {
      var i, e :| MadeAt(s, now, s', name, i, e);
      var i', e' :| MadeAt(t, now', t', name, i', e');
      MadeAtAlike(s, t, now, now', s', t', name, i, i', e, e', exact);
    } else {
      NotEnteredAlike(s, t, now, now', s', t', exact);
    }
  }

  /** A step from alike states succeeds in both or in neither and leads to alike states. */
  lemma StepsAgree(g: Geo, s: State, t: State, op: Op, ok: bool, ok': bool, s': State, t': State, exact: bool)
    requires Alike(s, t, exact) && Step(g, s, op, ok, s') && Step(g, t, op, ok', t')
    ensures ok' == ok && Alike(s', t', exact && !Wraps(op))
  {
    SucceedsAlike(g, s, t, op, exact);
    var k := Find(s.dir, op.name);
    match op {
      case Create(name) => CreatedAlike(g, s, t, name, ok, s', t', FileGrows(s, name), exact);
      case Mkdir(name) => MadeAlike(g, s, t, name, ok, s', t', DirGrows(s.free, s.dir, name), exact);
      case Write(name, offset, buf) =>
        if IsFileAt(s, k) {
          assert ItemAlike(s.items[k], t.items[k], exact);
          WroteAlike(g, s, t, s', t', k, offset, buf, ok, exact);
        } else {
          assert k >= 0 && k in s.items ==> ItemAlike(s.items[k], t.items[k], exact);
          LessExact(s, t, exact, exact && !Wraps(op));
        }
      case Truncate(name) =>
        if ok {
          assert ItemAlike(s.items[k], t.items[k], exact);
          RewrittenAlike(s, t, s', t', k, 0, s.items[k].clusters, 0, [], exact, exact);
        }
      case Unlink(name) =>
        if ok {
          FoundIsLive(s.dir, name);
          GoneAlike(s, t, s', t', k, exact);
        }
      case Rmdir(name) =>
        if ok {
          FoundIsLive(s.dir, name);
          GoneAlike(s, t, s', t', k, exact);
        }
    }
  }

  lemma {:induction false} FoundFrom(dir: seq<Raw>, i: nat, s: LfnState, name: seq<Byte>)
    requires i <= |dir| && |s.name| == NAME_SIZE
    ensures var k := FindFrom(dir, i, s, name); k >= 0 ==> LiveAt(dir, k)
    decreases |dir| - i
  {
    if i < |dir| {
      FoundFrom(dir, i + 1, After(s, dir[i]), name);
    }
  }

  lemma FoundIsLive(dir: seq<Raw>, name: seq<Byte>)
    ensures Find(dir, name) >= 0 ==> LiveAt(dir, Find(dir, name))
  {
    FoundFrom(dir, 0, Blank(), name);
  }

  /** The operations so far have not written into the last sector. */
  ghost predicate NoneWraps(ops: seq<Op>, n: nat) {
    forall i {:trigger ops[i]} :: 0 <= i < n && i < |ops| ==> !Wraps(ops[i])
  }

  lemma StepOf(g: Geo, ops: seq<Op>, done: seq<bool>, trace: seq<State>, i: nat)
    requires Ran(Steps(g), ops, done, trace) && i < |done|
    ensures Step(g, trace[i], ops[i], done[i], trace[i + 1])
  {
    assert Steps(g)(trace[i], ops[i], done[i], trace[i + 1]);
  }

  lemma NextWraps(ops: seq<Op>, i: nat)
    requires i < |ops|
    ensures NoneWraps(ops, i + 1) <==> NoneWraps(ops, i) && !Wraps(ops[i])
  {}

  lemma OneMore<T>(a: seq<T>, b: seq<T>, i: nat)
    requires i < |a| && i < |b| && b[..i] == a[..i] && b[i] == a[i]
    ensures b[..i + 1] == a[..i + 1]
  {
    assert a[..i + 1] == a[..i] + [a[i]] && b[..i + 1] == b[..i] + [b[i]];
  }

  /** Two runs of the same operations from alike states: each operation succeeds in both
      or in neither, whatever the clusters, and all states on the way are alike; as long
      as nothing is written into the last sector the files have the same contents. */
  lemma {:induction false} RunsAgree(g: Geo, ops: seq<Op>, done: seq<bool>, trace: seq<State>, done': seq<bool>,
                                     trace': seq<State>, n: nat)
    requires Ran(Steps(g), ops, done, trace) && Ran(Steps(g), ops, done', trace') && n <= |done| && n <= |done'|
    requires Alike(trace[0], trace'[0], true)
    ensures done'[..n] == done[..n] && Alike(trace[n], trace'[n], NoneWraps(ops, n))
  {
    if n > 0 {
      RunsAgree(g, ops, done, trace, done', trace', n - 1);
      var i := n - 1;
      StepOf(g, ops, done, trace, i);
      StepOf(g, ops, done', trace', i);
      StepsAgree(g, trace[i], trace'[i], ops[i], done[i], done'[i], trace[n], trace'[n], NoneWraps(ops, i));
      OneMore(done, done', i);
      NextWraps(ops, i);
    }
  }
}
