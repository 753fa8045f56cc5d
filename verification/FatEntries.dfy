/** Directory scans (fs/fat32_dir.c) over the raw entries of a directory: looking a name
    up, choosing an unused alias and finding room. */
module FatEntries {
  import opened Bitmap
  import opened Bytes
  import opened Extents
  import opened FatNames
  import opened FatDirs
  import opened FatAlias

  /** Looks a name up, gathering long names on the way. */
  method FindEntry(dir: seq<Raw>, name: seq<Byte>) returns (index: int, state: LfnState)
    ensures index == Find(dir, name)
    ensures index >= 0 ==> IsShort(dir[index]) && state == StateAt(dir, index)
  {
    state := Blank();
    for i := 0 to |dir|
      invariant state == StateAt(dir, i) && Find(dir, name) == FindFrom(dir, i, state, name)
    {
      var r := dir[i];
      if IsEnd(r) {
        return -1, state;
      }
      if IsDeleted(r) {
        state := Blank();
      } else if IsLong(r) {
        var _, next := Capture(state, r);
        state := next;
      } else if IsVolume(r) {
        state := Blank();
      } else if MatchesName(r, state, name) {
        return i, state;
      } else {
        state := Blank();
      }
    }
    return -1, state;
  }

  // ----- aliases -----

  /** The short names of a directory, up to its end mark. */
  ghost function ShortList(dir: seq<Raw>): seq<seq<Byte>> {
    if dir == [] || IsEnd(dir[0]) then []
    else (if IsShort(dir[0]) then [dir[0][..11]] else []) + ShortList(dir[1..])
  }

  method ShortNameExists(dir: seq<Raw>, raw: seq<Byte>) returns (yes: bool)
    ensures yes <==> raw in ShortList(dir)
  {
    assert dir[0..] == dir;
    for i := 0 to |dir|
      invariant raw in ShortList(dir) <==> raw in ShortList(dir[i..])
    {
      assert dir[i..][0] == dir[i] && dir[i..][1..] == dir[i + 1..];
      if IsEnd(dir[i]) {
        return false;
      }
      if IsShort(dir[i]) && dir[i][..11] == raw {
        return true;
      }
    }
    return false;
  }

  /** Distinct names that all occur in a list are no more than the list has. */
  lemma {:induction false} Pigeonhole(distinct: seq<seq<Byte>>, names: seq<seq<Byte>>)
    requires NoDup(distinct) && forall i :: 0 <= i < |distinct| ==> distinct[i] in names
    ensures |distinct| <= |names|
  {
    if distinct != [] {
      var n := |distinct| - 1;
      var k :| 0 <= k < |names| && names[k] == distinct[n];
      var front, rest := distinct[..n], names[..k] + names[k + 1..];
      assert forall i, j {:trigger Differ(front[i], front[j])} :: 0 <= i < j < n ==> Differ(distinct[i], distinct[j]);
      forall i | 0 <= i < n ensures front[i] in rest {
        assert distinct[i] in names && Differ(distinct[i], distinct[n]);
        var j :| 0 <= j < |names| && names[j] == distinct[i];
        assert rest[if j < k then j else j - 1] == names[j];
      }
      Pigeonhole(front, rest);
    }
  }

  ghost predicate IsAliasAt(name: seq<Byte>, tried: seq<seq<Byte>>, s: nat)
    requires s < |tried|
  {
    s < SERIALS && tried[s] == Alias(name, s)
  }

  /** The aliases of a name from serial number 1 on are pairwise different. */
  lemma TriedDistinct(name: seq<Byte>, tried: seq<seq<Byte>>)
    requires tried != [] && forall s {:trigger IsAliasAt(name, tried, s)} :: 0 <= s < |tried| ==>
      IsAliasAt(name, tried, s)
    ensures NoDup(tried[1..])
  {
    var rest := tried[1..];
    forall i, j | 0 <= i < j < |rest| ensures Differ(rest[i], rest[j]) {
      assert IsAliasAt(name, tried, i + 1) && IsAliasAt(name, tried, j + 1);
      AliasesDiffer(name, i + 1, j + 1);
    }
  }

  lemma AliasesDiffer(name: seq<Byte>, s: nat, t: nat)
    requires 1 <= s < t < SERIALS
    ensures Alias(name, s) != Alias(name, t)
  {
    SerialFits(s);
    SerialFits(t);
    if Alias(name, s) == Alias(name, t) {
      AliasesDistinct(name, s, t);
    }
  }

  /** The alias with this serial number is not in use. */
  ghost predicate Unused(dir: seq<Raw>, name: seq<Byte>, s: nat) { s < SERIALS && Alias(name, s) !in ShortList(dir) }

  /** The first serial number whose alias is not in use. */
  ghost predicate FirstUnused(dir: seq<Raw>, name: seq<Byte>, s: nat) {
    Unused(dir, name, s) && forall t: nat {:trigger Unused(dir, name, t)} :: t < s ==> !Unused(dir, name, t)
  }

  /** Tries serial numbers until the alias is not in use.  With fewer than 999999 short
      names in the directory it always succeeds. */
  method BuildUniqueShortName(dir: seq<Raw>, name: seq<Byte>) returns (ok: bool, raw: seq<Byte>, ghost serial: nat)
    ensures ok ==> serial < SERIALS && raw == Alias(name, serial) && raw !in ShortList(dir)
    ensures ok ==> FirstUnused(dir, name, serial)
    ensures ok && serial > 0 ==> Alias(name, 0) in ShortList(dir)
    ensures ok <==> exists s: nat :: Unused(dir, name, s)
    ensures |ShortList(dir)| < SERIALS - 1 ==> ok
  {
    raw := [];
    ghost var tried: seq<seq<Byte>> := [];
    for s := 0 to SERIALS
      invariant |tried| == s && forall t {:trigger tried[t]} :: 0 <= t < s ==> tried[t] in ShortList(dir)
      invariant forall t {:trigger IsAliasAt(name, tried, t)} :: 0 <= t < s ==> IsAliasAt(name, tried, t)
    {
      raw := MakeShortAlias(name, s);
      var taken := ShortNameExists(dir, raw);
      if !taken {
        assert Unused(dir, name, s);
        assert s > 0 ==> IsAliasAt(name, tried, 0) && tried[0] in ShortList(dir);
        forall t: nat | t < s ensures !Unused(dir, name, t) {
          assert IsAliasAt(name, tried, t) && tried[t] in ShortList(dir);
        }
        return true, raw, s;
      }
      TryOne(name, tried, s, raw);
      tried := tried + [raw];
    }
    forall s: nat ensures !Unused(dir, name, s) {
      assert s < SERIALS ==> IsAliasAt(name, tried, s) && tried[s] in ShortList(dir);
    }
    TriedDistinct(name, tried);
    Pigeonhole(tried[1..], ShortList(dir));
    return false, raw, 0;
  }

  lemma TryOne(name: seq<Byte>, tried: seq<seq<Byte>>, s: nat, raw: seq<Byte>)
    requires s == |tried| && s < SERIALS && raw == Alias(name, s)
    requires forall t {:trigger IsAliasAt(name, tried, t)} :: 0 <= t < s ==> IsAliasAt(name, tried, t)
    ensures forall t {:trigger IsAliasAt(name, tried + [raw], t)} :: 0 <= t < s + 1 ==>
      IsAliasAt(name, tried + [raw], t)
  {
    var more := tried + [raw];
    forall t | 0 <= t < s + 1 ensures IsAliasAt(name, more, t) {
      assert t < s ==> IsAliasAt(name, tried, t);
    }
  }

  // ----- room -----

  ghost predicate AllFree(dir: seq<Raw>, at: nat, n: nat) {
    at + n <= |dir| && forall i {:trigger dir[i]} :: at <= i < at + n ==> IsFree(dir[i])
  }

  /** The first `n` free entries in a row. */
  ghost predicate FirstRoom(dir: seq<Raw>, at: nat, n: nat) {
    AllFree(dir, at, n) && forall a: nat {:trigger AllFree(dir, a, n)} :: a < at ==> !AllFree(dir, a, n)
  }

  /** The first `needed` free entries in a row. */
  method LocateFreeSpan(dir: seq<Raw>, needed: nat) returns (at: int)
    requires needed > 0
    ensures at >= 0 ==> FirstRoom(dir, at, needed) && (at == 0 || !IsFree(dir[at - 1]))
    ensures at < 0 ==> forall a: nat :: !AllFree(dir, a, needed)
  {
    var run := 0;
    for i := 0 to |dir|
      invariant 0 <= run < needed && run <= i && AllFree(dir, i - run, run)
      invariant i - run == 0 || !IsFree(dir[i - run - 1])
      invariant forall a: nat :: a + needed <= i ==> !AllFree(dir, a, needed)
    {
      if IsEnd(dir[i]) || IsDeleted(dir[i]) {
        run := run + 1;
        if run >= needed {
          return i - needed + 1;
        }
      } else {
        run := 0;
      }
    }
    return -1;
  }

  ghost predicate RoomFor(dir: seq<Raw>, needed: nat) { exists a: nat :: AllFree(dir, a, needed) }

  function EmptyEntry(): Raw { seq(32, _ => 0) }

  /** A directory with `n` more entries, all end marks. */
  ghost function Extended(dir: seq<Raw>, n: nat): seq<Raw> { dir + seq(n, _ => EmptyEntry()) }

  /** In a well-formed directory no end mark comes before the room found. */
  lemma NoEndBefore(dir: seq<Raw>, at: nat)
    requires WellFormed(dir) && at <= |dir| && (at == 0 || !IsFree(dir[at - 1]))
    ensures forall j :: 0 <= j < at ==> !IsEnd(dir[j])
  {
    forall j | 0 <= j < at ensures !IsEnd(dir[j]) {
      assert !IsEnd(dir[at - 1]);
    }
  }

  /** Writing entries into room found keeps a directory well formed. */
  lemma CreateKeepsForm(dir: seq<Raw>, dir': seq<Raw>, at: nat, parts: seq<Raw>, short: Raw)
    requires WellFormed(dir) && Created(dir, dir', at, parts, short) && (at == 0 || !IsFree(dir[at - 1]))
    requires IsShort(short) && forall i :: 0 <= i < |parts| ==> !IsFree(parts[i])
    ensures WellFormed(dir')
  {
    NoEndBefore(dir, at);
    forall i | 0 <= i <= at + |parts| ensures !IsEnd(dir'[i]) {
      if at <= i < at + |parts| {
        assert dir'[i] == parts[i - at];
      }
    }
    forall i, j | 0 <= i < j < |dir'| && IsEnd(dir'[i]) ensures IsEnd(dir'[j]) {
      assert dir'[i] == dir[i] && dir'[j] == dir[j];
      assert IsEnd(dir[i]) ==> IsEnd(dir[j]);
    }
  }

  // ----- the short entry -----

  /** A short entry for an empty file or a new directory. */
  function ShortEntry(raw: seq<Byte>, attr: Byte, cluster: nat): (r: Raw)
    requires |raw| == 11 && cluster < 0x1_0000_0000
  {
    raw + [attr] + Zeros(8) + LittleEndianBytes(cluster / 0x1_0000, 2) + Zeros(4)
      + LittleEndianBytes(cluster % 0x1_0000, 2) + Zeros(4)
  }

  /** The first cluster an entry names. */
  function FirstCluster(r: Raw): nat { 0x1_0000 * LittleEndian(r[20..22]) + LittleEndian(r[26..28]) }

  lemma ShortEntryFields(raw: seq<Byte>, attr: Byte, cluster: nat)
    requires |raw| == 11 && cluster < 0x1_0000_0000
    ensures var r := ShortEntry(raw, attr, cluster);
            r[..11] == raw && r[11] == attr && FirstCluster(r) == cluster && FileSize(r) == 0
  {
    var r := ShortEntry(raw, attr, cluster);
    assert Pow256(2) == 65536;
    assert r[20..22] == LittleEndianBytes(cluster / 0x1_0000, 2);
    assert r[26..28] == LittleEndianBytes(cluster % 0x1_0000, 2);
    assert r[28..32] == [0, 0, 0, 0] && [0, 0, 0, 0][1..] == [0, 0, 0] && [0, 0, 0][1..] == [0, 0];
  }

  /** The size an entry gives. */
  function FileSize(r: Raw): nat { LittleEndian(r[28..32]) }

  predicate IsDirectory(r: Raw) { r[11] / ATTR_DIRECTORY % 2 == 1 }

  /** An entry with other attributes, first cluster and size. */
  function WithFields(r: Raw, attr: Byte, cluster: nat, size: nat): Raw
    requires cluster < 0x1_0000_0000 && size < 0x1_0000_0000
  {
    r[..11] + [attr] + r[12..20] + LittleEndianBytes(cluster / 0x1_0000, 2) + r[22..26]
    + LittleEndianBytes(cluster % 0x1_0000, 2) + LittleEndianBytes(size, 4)
  }

  /** The name and the times are the same. */
  ghost predicate SameButFields(r: Raw, r': Raw) {
    r'[..11] == r[..11] && r'[12..20] == r[12..20] && r'[22..26] == r[22..26]
  }

  lemma WithFieldsAre(r: Raw, attr: Byte, cluster: nat, size: nat)
    requires cluster < 0x1_0000_0000 && size < 0x1_0000_0000
    ensures var r' := WithFields(r, attr, cluster, size);
            SameButFields(r, r') && r'[11] == attr && FirstCluster(r') == cluster && FileSize(r') == size
  {
    var r' := WithFields(r, attr, cluster, size);
    assert Pow256(2) == 65536 && Pow256(4) == 65536 * 65536 by { assert Pow256(3) == 256 * Pow256(2); }
    assert r'[20..22] == LittleEndianBytes(cluster / 0x1_0000, 2);
    assert r'[26..28] == LittleEndianBytes(cluster % 0x1_0000, 2);
    assert r'[28..32] == LittleEndianBytes(size, 4);
  }

  /** The checksum depends only on the eleven bytes of the short name. */
  lemma {:induction false} ChecksumKept(a: seq<Byte>, b: seq<Byte>, n: nat)
    requires n <= |a| && n <= |b| && a[..n] == b[..n]
    ensures Checksum(a, n) == Checksum(b, n)
  {
    if n > 0 {
      assert a[..n - 1] == a[..n][..n - 1] && b[..n - 1] == b[..n][..n - 1];
      assert a[n - 1] == a[..n][n - 1] && b[n - 1] == b[..n][n - 1];
      ChecksumKept(a, b, n - 1);
    }
  }

  // ----- directories that hold nothing -----

  predicate IsDotName(name: seq<Byte>) { name == [PERIOD] || name == [PERIOD, PERIOD] }

  /** Every file of the directory is called "." or "..". */
  ghost predicate OnlyDots(dir: seq<Raw>) {
    forall j: nat {:trigger LiveAt(dir, j)} :: LiveAt(dir, j) ==> IsDotName(FileName(dir[j], StateAt(dir, j)))
  }

  /** The short name of "." or "..". */
  function DotName(n: nat): (r: seq<Byte>)
    requires n <= 11
    ensures |r| == 11
  {
    seq(n, _ => PERIOD) + seq(11 - n, _ => SPACE)
  }

  ghost predicate IsDirEntry(r: Raw, name: seq<Byte>, cluster: nat) {
    r[..11] == name && r[11] == ATTR_DIRECTORY && FirstCluster(r) == cluster
  }

  /** A new directory: entries for itself and its parent, then end marks. */
  ghost predicate FreshDir(dir: seq<Raw>, self: nat, up: nat) {
    && |dir| >= 2 && IsDirEntry(dir[0], DotName(1), self) && IsDirEntry(dir[1], DotName(2), up)
    && forall j {:trigger dir[j]} :: 2 <= j < |dir| ==> dir[j] == EmptyEntry()
  }

  lemma DotShows(r: Raw, n: nat, cluster: nat)
    requires 1 <= n <= 2 && IsDirEntry(r, DotName(n), cluster)
    ensures IsShort(r) && Format83(r) == seq(n, _ => PERIOD)
  {
    assert forall i :: 0 <= i < 11 ==> r[i] == r[..11][i];
    assert r[0] == PERIOD && r[8] == SPACE && r[n] == SPACE && (n == 2 ==> r[1] == PERIOD);
    assert UpToBlank(r, 8) == if n == 1 then [PERIOD] else [PERIOD, PERIOD] by {
      assert r[1..][0] == r[1] && r[1..][1..][0] == r[2];
      assert UpToBlank(r[1..], 7) == if n == 1 then [] else [PERIOD] + UpToBlank(r[1..][1..], 6);
    }
  }

  /** A new directory is well formed and holds nothing. */
  lemma FreshIsEmpty(dir: seq<Raw>, self: nat, up: nat)
    requires FreshDir(dir, self, up)
    ensures WellFormed(dir) && OnlyDots(dir)
  {
    DotShows(dir[0], 1, self);
    DotShows(dir[1], 2, up);
    assert StateAt(dir, 0) == Blank() && StateAt(dir, 1) == Blank();
    forall j: nat | LiveAt(dir, j) ensures IsDotName(FileName(dir[j], StateAt(dir, j))) {
      assert j < 2;
    }
  }

  // ----- names without long entries -----

  /** Where a short name is listed, looking for that name finds something. */
  lemma {:induction false} ListedIsFound(dir: seq<Raw>, i: nat, s: LfnState, name: seq<Byte>, raw: seq<Byte>)
    requires i <= |dir| && |s.name| == NAME_SIZE && raw in ShortList(dir[i..])
    requires forall r: Raw :: r[..11] == raw ==> Format83(r) == name
    ensures FindFrom(dir, i, s, name) >= 0
    decreases |dir| - i
  {
    assert i < |dir|;
    assert dir[i..][0] == dir[i] && dir[i..][1..] == dir[i + 1..];
    if !(IsShort(dir[i]) && MatchesName(dir[i], s, name)) {
      assert dir[i][..11] != raw || !IsShort(dir[i]);
      ListedIsFound(dir, i + 1, After(s, dir[i]), name, raw);
    }
  }

  /** A name that is short already and not in the directory gets its own bytes as
      its short name. */
  lemma ShortGetsItself(dir: seq<Raw>, name: seq<Byte>)
    requires !NeedsLong(name) && name[|name| - 1] != PERIOD && Find(dir, name) == -1
    ensures Alias(name, 0) !in ShortList(dir)
  {
    var raw := Alias(name, 0);
    forall r: Raw | r[..11] == raw ensures Format83(r) == name { ShortNameRoundTrip(r, name); }
    if raw in ShortList(dir) {
      assert dir[0..] == dir;
      ListedIsFound(dir, 0, Blank(), name, raw);
    }
  }

  lemma FindAfterCreateShort(dir: seq<Raw>, dir': seq<Raw>, at: nat, short: Raw, name: seq<Byte>)
    requires Created(dir, dir', at, [], short) && IsShort(short) && ReadsAs(short[..11], name)
    requires Find(dir, name) == -1 && (forall j :: 0 <= j < at ==> !IsEnd(dir[j]))
    ensures Find(dir', name) == at
  {
    assert dir'[..at] == dir[..at];
    PassedOver(dir, dir', at, name);
    SkipTo(dir', name, 0, at);
    assert dir'[at] == short && Format83(short) == name;
  }

  lemma {:induction false} UpToBlankIn(raw: seq<Byte>, n: nat)
    requires n <= |raw|
    ensures |UpToBlank(raw, n)| <= n && forall i :: 0 <= i < |UpToBlank(raw, n)| ==> UpToBlank(raw, n)[i] == raw[i]
    ensures n > 0 && raw[0] != SPACE ==> UpToBlank(raw, n) != []
  {
    if n > 0 && raw[0] != SPACE {
      UpToBlankIn(raw[1..], n - 1);
    }
  }

  /** A short name without a period in it never shows as a name of more than twelve
      bytes or one that ends in a period. */
  lemma ShortShows(r: Raw, name: seq<Byte>)
    requires PERIOD !in r[..11] && name != [] && (|name| > 12 || name[|name| - 1] == PERIOD)
    ensures !SameIgnoringCase(Format83(r), name)
  {
    UpToBlankIn(r, 8);
    UpToBlankIn(r[8..], 3);
    forall i | 0 <= i < 11 ensures r[i] != PERIOD { assert r[i] == r[..11][i]; }
    var shown := Format83(r);
    assert shown != [] ==> shown[|shown| - 1] != PERIOD;
  }

  /** A short entry with these eleven bytes shows the name itself. */
  ghost predicate ReadsAs(raw: seq<Byte>, name: seq<Byte>) {
    forall r: Raw {:trigger Format83(r)} :: r[..11] == raw ==> Format83(r) == name
  }

  /** A short name fit for a new entry: unused, not mistaken for an end mark or a
      deleted entry, and the name's own if the name needs no long entry. */
  ghost predicate GoodShortName(dir: seq<Raw>, name: seq<Byte>, raw: seq<Byte>) {
    && |raw| == 11 && raw[0] != 0 && raw[0] != 0xE5 && raw !in ShortList(dir)
    && PERIOD !in raw && (!NeedsLong(name) && name[|name| - 1] != PERIOD ==> ReadsAs(raw, name))
  }

  lemma ChosenIsGood(dir: seq<Raw>, name: seq<Byte>, raw: seq<Byte>, serial: nat)
    requires serial < SERIALS && raw == Alias(name, serial) && raw !in ShortList(dir)
    requires serial > 0 ==> Alias(name, 0) in ShortList(dir)
    requires name != [] && Find(dir, name) == -1
    ensures GoodShortName(dir, name, raw)
  {
    AliasSafe(name, serial);
    AliasNoPeriod(name, serial);
    if !NeedsLong(name) && name[|name| - 1] != PERIOD {
      ShortGetsItself(dir, name);
      forall r: Raw | r[..11] == raw ensures Format83(r) == name { ShortNameRoundTrip(r, name); }
    }
  }
}
