/** FAT32 directories (fs/fat32_dir.c, fs/fat32_name.c; section 6 of the Microsoft FAT
    Specification): scanning for a name, finding room and creating an entry. */
module FatDirs {
  import opened Bitmap
  import opened Bytes
  import opened FatNames

  // ----- directory entries -----

  predicate IsEnd(r: Raw) { r[0] == 0 }
  predicate IsDeleted(r: Raw) { r[0] == 0xE5 }
  predicate IsLong(r: Raw) { r[11] == ATTR_LFN }
  predicate IsVolume(r: Raw) { r[11] / ATTR_VOLUME % 2 == 1 }

  /** An entry that stands for a file or directory. */
  predicate IsShort(r: Raw) { !IsEnd(r) && !IsDeleted(r) && !IsLong(r) && !IsVolume(r) }

  predicate IsFree(r: Raw) { IsEnd(r) || IsDeleted(r) }

  /** The checksum of the first `n` bytes of a short name. */
  function Checksum(raw: seq<Byte>, n: nat): (c: Byte)
    requires n <= |raw|
  {
    if n == 0 then 0
    else var sum := Checksum(raw, n - 1); ((if sum % 2 == 1 then 0x80 else 0) + sum / 2 + raw[n - 1]) % 256
  }

  const SPACE: Byte := 32
  const PERIOD: Byte := 46

  /** The characters of `raw` up to the first blank, at most `n`. */
  function UpToBlank(raw: seq<Byte>, n: nat): seq<Byte>
    requires n <= |raw|
  {
    if n == 0 || raw[0] == SPACE then [] else [raw[0]] + UpToBlank(raw[1..], n - 1)
  }

  function Format83(r: Raw): seq<Byte> {
    UpToBlank(r, 8) + (if r[8] != SPACE then [PERIOD] + UpToBlank(r[8..], 3) else [])
  }

  function Lower(b: Byte): Byte { if 'A' as nat <= b <= 'Z' as nat then b + 32 else b }

  /** Equal up to the case of ASCII letters. */
  predicate SameIgnoringCase(a: seq<Byte>, b: seq<Byte>) {
    |a| == |b| && forall i :: 0 <= i < |a| ==> Lower(a[i]) == Lower(b[i])
  }

  /** The long name gathered belongs to this entry. */
  predicate HasLongName(r: Raw, s: LfnState)
    requires |s.name| == NAME_SIZE
  {
    s.valid && s.nextOrder == 0 && s.name[0] != 0 && s.checksum == Checksum(r, 11)
  }

  function FileName(r: Raw, s: LfnState): seq<Byte>
    requires |s.name| == NAME_SIZE
  {
    if HasLongName(r, s) then CStr(s.name) else Format83(r)
  }

  predicate MatchesName(r: Raw, s: LfnState, name: seq<Byte>)
    requires |s.name| == NAME_SIZE
  {
    SameIgnoringCase(FileName(r, s), name) || SameIgnoringCase(Format83(r), name)
  }

  // ----- scanning -----

  /** What is gathered after looking at an entry that is not the one sought. */
  ghost function After(s: LfnState, r: Raw): (s': LfnState)
    requires |s.name| == NAME_SIZE
    ensures |s'.name| == NAME_SIZE
  {
    if !IsFree(r) && IsLong(r) then Captured(s, r) else Blank()
  }

  /** The first entry from `i` on that has the name, or -1; the scan stops at an end
      mark. */
  ghost function FindFrom(dir: seq<Raw>, i: nat, s: LfnState, name: seq<Byte>): (k: int)
    requires i <= |dir| && |s.name| == NAME_SIZE
    ensures k == -1 || i <= k < |dir|
    decreases |dir| - i
  {
    if i == |dir| || IsEnd(dir[i]) then -1
    else if IsShort(dir[i]) && MatchesName(dir[i], s, name) then i
    else FindFrom(dir, i + 1, After(s, dir[i]), name)
  }

  ghost function Find(dir: seq<Raw>, name: seq<Byte>): int { FindFrom(dir, 0, Blank(), name) }

  /** What is gathered when a scan reaches entry `i`. */
  ghost function StateAt(dir: seq<Raw>, i: nat): (s: LfnState)
    requires i <= |dir|
    ensures |s.name| == NAME_SIZE
  {
    if i == 0 then Blank() else After(StateAt(dir, i - 1), dir[i - 1])
  }

  /** After an end mark there are only end marks. */
  ghost predicate WellFormed(dir: seq<Raw>) {
    forall i, j {:trigger IsEnd(dir[i]), IsEnd(dir[j])} :: 0 <= i < j < |dir| && IsEnd(dir[i]) ==> IsEnd(dir[j])
  }

  /** A scan that found nothing goes on past any entry before the first end mark. */
  lemma {:induction false} NotFoundBefore(dir: seq<Raw>, name: seq<Byte>, i: nat, n: nat)
    requires i <= n <= |dir| && FindFrom(dir, i, StateAt(dir, i), name) == -1
    requires forall j :: i <= j < n ==> !IsEnd(dir[j])
    ensures FindFrom(dir, n, StateAt(dir, n), name) == -1
    ensures forall j :: i <= j < n ==> !(IsShort(dir[j]) && MatchesName(dir[j], StateAt(dir, j), name))
    decreases n - i
  {
    if i < n {
      NotFoundBefore(dir, name, i + 1, n);
    }
  }

  /** A scan depends only on the entries it has seen. */
  lemma {:induction false} StateKept(dir: seq<Raw>, dir': seq<Raw>, n: nat)
    requires n <= |dir| && n <= |dir'| && dir[..n] == dir'[..n]
    ensures StateAt(dir, n) == StateAt(dir', n)
  {
    if n > 0 {
      assert dir[..n - 1] == dir[..n][..n - 1] && dir'[..n - 1] == dir'[..n][..n - 1];
      assert dir[n - 1] == dir[..n][n - 1] && dir'[n - 1] == dir'[..n][n - 1];
      StateKept(dir, dir', n - 1);
    }
  }

  /** Entries that do not match are passed over. */
  lemma {:induction false} SkipTo(dir: seq<Raw>, name: seq<Byte>, i: nat, n: nat)
    requires i <= n <= |dir|
    requires forall j :: i <= j < n ==>
      !IsEnd(dir[j]) && !(IsShort(dir[j]) && MatchesName(dir[j], StateAt(dir, j), name))
    ensures FindFrom(dir, i, StateAt(dir, i), name) == FindFrom(dir, n, StateAt(dir, n), name)
    decreases n - i
  {
    if i < n {
      SkipTo(dir, name, i + 1, n);
    }
  }

  /** The state after the parts of a name have been scanned. */
  lemma {:induction false} StateAfterParts(dir: seq<Raw>, at: nat, parts: seq<Raw>, j: nat)
    requires at + |parts| <= |dir| && j <= |parts| && forall i :: 0 <= i < |parts| ==> dir[at + i] == parts[i]
    requires forall i :: 0 <= i < |parts| ==> !IsFree(parts[i]) && IsLong(parts[i])
    ensures CaptureAll(StateAt(dir, at + j), parts[j..]) == StateAt(dir, at + |parts|)
    decreases |parts| - j
  {
    var rest := parts[j..];
    if j < |parts| {
      assert rest[0] == parts[j] == dir[at + j] && rest[1..] == parts[j + 1..];
      StateAfterParts(dir, at, parts, j + 1);
    }
  }

  /** The directory after the parts of a name and its short entry were written at
      `at`. */
  ghost predicate Created(dir: seq<Raw>, dir': seq<Raw>, at: nat, parts: seq<Raw>, short: Raw) {
    && |dir'| == |dir| && at + |parts| < |dir|
    && forall i {:trigger dir'[i]} :: 0 <= i < |dir| ==>
         dir'[i] == if at <= i < at + |parts| then parts[i - at] else if i == at + |parts| then short else dir[i]
  }

  lemma PartsAreLong(parts: seq<Raw>, name: seq<Byte>, checksum: Byte)
    requires AreParts(parts, name, checksum) && |name| <= 260
    ensures forall i :: 0 <= i < |parts| ==> !IsFree(parts[i]) && IsLong(parts[i]) && !IsShort(parts[i])
  {
    forall i | 0 <= i < |parts| ensures !IsFree(parts[i]) && IsLong(parts[i]) && !IsShort(parts[i]) {
      assert IsPart(parts[i], name, |parts|, |parts| - i, checksum);
    }
  }

  /** A scan passes over everything before the new entry. */
  lemma PassedOver(dir: seq<Raw>, dir': seq<Raw>, at: nat, name: seq<Byte>)
    requires at <= |dir| && at <= |dir'| && dir'[..at] == dir[..at]
    requires Find(dir, name) == -1 && forall j :: 0 <= j < at ==> !IsEnd(dir[j])
    ensures forall j :: 0 <= j < at ==>
      !IsEnd(dir'[j]) && !(IsShort(dir'[j]) && MatchesName(dir'[j], StateAt(dir', j), name))
  {
    NotFoundBefore(dir, name, 0, at);
    forall j | 0 <= j < at
      ensures !IsEnd(dir'[j]) && !(IsShort(dir'[j]) && MatchesName(dir'[j], StateAt(dir', j), name))
    {
      assert dir[..j] == dir[..at][..j] && dir'[..j] == dir'[..at][..j];
      StateKept(dir, dir', j);
      assert dir'[j] == dir'[..at][j] == dir[..at][j] == dir[j];
    }
  }

  /** Finding a name after creating it returns the entry just written, under exactly
      that name. */
  lemma FindAfterCreate(dir: seq<Raw>, dir': seq<Raw>, at: nat, parts: seq<Raw>, short: Raw, name: seq<Byte>)
    requires Created(dir, dir', at, parts, short) && IsShort(short)
    requires Find(dir, name) == -1 && (forall j :: 0 <= j < at ==> !IsEnd(dir[j]))
    requires 0 !in name && 1 <= |name| <= 247 && AreParts(parts, name, Checksum(short, 11))
    ensures Find(dir', name) == at + |parts|
    ensures FileName(short, StateAt(dir', at + |parts|)) == name && StateAt(dir', at + |parts|).total == |parts|
  {
    var n := at + |parts|;
    assert dir'[..at] == dir[..at];
    PassedOver(dir, dir', at, name);
    PartsAreLong(parts, name, Checksum(short, 11));
    forall j | at <= j < n ensures !IsEnd(dir'[j]) && !IsShort(dir'[j]) {
      assert dir'[j] == parts[j - at];
    }
    SkipTo(dir', name, 0, n);
    StateAfterParts(dir', at, parts, 0);
    assert parts[0..] == parts;
    NameRoundTrip(StateAt(dir', at), parts, name, Checksum(short, 11));
    assert dir'[n] == short;
  }

  // ----- what a change leaves alone -----

  /** Entry `j` stands for a file or directory. */
  ghost predicate LiveAt(dir: seq<Raw>, j: nat) { j < |dir| && IsShort(dir[j]) }

  /** Entry `j` is the same in both, and so is the long name gathered for it. */
  ghost predicate Kept(a: seq<Raw>, b: seq<Raw>, j: nat) {
    j < |a| && j < |b| && a[j] == b[j] && StateAt(a, j) == StateAt(b, j)
  }

  /** Apart from entry `k`, both have the same files under the same names. */
  ghost predicate SameLive(a: seq<Raw>, b: seq<Raw>, k: int) {
    forall j: nat {:trigger LiveAt(a, j)} {:trigger LiveAt(b, j)} :: j != k && (LiveAt(a, j) || LiveAt(b, j)) ==>
      Kept(a, b, j)
  }

  lemma SameLiveTwice(a: seq<Raw>, b: seq<Raw>, c: seq<Raw>, k: int)
    requires SameLive(a, b, k) && SameLive(b, c, k)
    ensures SameLive(a, c, k)
  {
    forall j: nat | j != k && (LiveAt(a, j) || LiveAt(c, j)) ensures Kept(a, c, j) {
      assert Kept(a, b, j) || Kept(b, c, j);
      assert LiveAt(b, j);
    }
  }

  /** Scans in the same state that see the same entries stay in the same state. */
  lemma {:induction false} StatesAgree(a: seq<Raw>, b: seq<Raw>, n: nat, m: nat)
    requires n <= m <= |a| && m <= |b| && StateAt(a, n) == StateAt(b, n)
    requires forall j :: n <= j < m ==> a[j] == b[j]
    ensures StateAt(a, m) == StateAt(b, m)
    decreases m - n
  {
    if n < m {
      StatesAgree(a, b, n, m - 1);
    }
  }

  /** Rewriting the entries [at, n] so that a scan has gathered nothing after them, before
      and after, touches no file but entry `n`. */
  lemma RewrittenLive(a: seq<Raw>, b: seq<Raw>, at: nat, n: nat)
    requires at <= n < |a| == |b| && (forall j :: 0 <= j < |a| && !(at <= j <= n) ==> a[j] == b[j])
    requires forall j :: at <= j < n ==> !IsShort(a[j]) && !IsShort(b[j])
    requires (IsFree(a[n]) || !IsLong(a[n])) && (IsFree(b[n]) || !IsLong(b[n]))
    ensures SameLive(a, b, n)
  {
    forall j: nat | j != n && (LiveAt(a, j) || LiveAt(b, j)) ensures Kept(a, b, j) {
      if j < at {
        assert a[..j] == b[..j];
        StateKept(a, b, j);
      } else {
        assert StateAt(a, n + 1) == Blank() == StateAt(b, n + 1);
        StatesAgree(a, b, n + 1, j);
      }
    }
  }

  lemma GrownLive(dir: seq<Raw>, dir': seq<Raw>)
    requires |dir| <= |dir'| && dir'[..|dir|] == dir && forall k :: |dir| <= k < |dir'| ==> IsEnd(dir'[k])
    ensures SameLive(dir, dir', -1)
  {
    forall j: nat | LiveAt(dir, j) || LiveAt(dir', j) ensures Kept(dir, dir', j) {
      assert dir'[..|dir|][j] == dir[j];
      assert dir[..j] == dir'[..|dir|][..j] == dir'[..j];
      StateKept(dir, dir', j);
    }
  }

  /** Entry `j` is a file that answers to the name. */
  ghost predicate Hit(dir: seq<Raw>, name: seq<Byte>, j: nat) {
    LiveAt(dir, j) && MatchesName(dir[j], StateAt(dir, j), name)
  }

  /** In a well-formed directory a lookup finds the first hit, wherever it is. */
  lemma {:induction false} FindIsFirst(dir: seq<Raw>, name: seq<Byte>, i: nat)
    requires WellFormed(dir) && i <= |dir|
    ensures var k := FindFrom(dir, i, StateAt(dir, i), name);
            && (k >= 0 ==> Hit(dir, name, k))
            && forall j {:trigger Hit(dir, name, j)} :: i <= j < (if k >= 0 then k else |dir|) ==> !Hit(dir, name, j)
    decreases |dir| - i
  {
    if i < |dir| {
      if IsEnd(dir[i]) {
        assert forall j {:trigger Hit(dir, name, j)} :: i < j < |dir| ==> IsEnd(dir[j]);
      } else {
        FindIsFirst(dir, name, i + 1);
      }
    }
  }

  /** Changing one entry changes only the lookups that lead or led to it. */
  lemma FindKept(a: seq<Raw>, b: seq<Raw>, k: int, name: seq<Byte>)
    requires WellFormed(a) && WellFormed(b) && SameLive(a, b, k)
    requires Find(a, name) != k || k == -1
    requires k >= 0 ==> !Hit(b, name, k)
    ensures Find(b, name) == Find(a, name)
  {
    FindIsFirst(a, name, 0);
    FindIsFirst(b, name, 0);
    var x, y := Find(a, name), Find(b, name);
    assert forall j: nat {:trigger Hit(b, name, j)} :: Hit(b, name, j) ==>
      j != k && LiveAt(b, j) && Kept(a, b, j) && Hit(a, name, j);
    if x >= 0 {
      assert LiveAt(a, x) && Kept(a, b, x) && Hit(b, name, x);
    }
    if y >= 0 {
      assert Hit(a, name, y);
    }
  }
}
