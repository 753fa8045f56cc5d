/** FAT32 long names (fs/fat32_name.c, fs/fat32_dir.c; section 7 of the Microsoft FAT
    Specification): a name is spread over entries of 13 characters, written last part
    first, and captured again entry by entry. */
module FatNames {
  import opened Bitmap
  import opened Bytes

  type Raw = r: seq<Byte> | |r| == 32 witness seq(32, _ => 0)

  const ATTR_VOLUME := 8
  const ATTR_DIRECTORY := 16
  const ATTR_LFN := 15
  const NAME_SIZE := 256
  const LAST_FLAG := 64

  // ----- one long-name entry -----

  /** Where character `i` of the 13 is stored. */
  function CharAt(i: nat): (o: nat)
    requires i < 13
    ensures 1 <= o && o + 2 <= 32 && (o + 2 <= 11 || (14 <= o && o + 2 <= 26) || 28 <= o)
  {
    if i < 5 then 1 + 2 * i else if i < 11 then 14 + 2 * (i - 5) else 28 + 2 * (i - 11)
  }

  function Unit(r: Raw, i: nat): nat
    requires i < 13
  {
    r[CharAt(i)] as int + 256 * r[CharAt(i) + 1] as int
  }

  function WithUnit(r: Raw, i: nat, v: nat): (r': Raw)
    requires i < 13 && v < 0x1_0000
    ensures Unit(r', i) == v
    ensures forall j :: 0 <= j < 13 && j != i ==> Unit(r', j) == Unit(r, j)
    ensures r'[0] == r[0] && forall k :: 11 <= k < 14 || 26 <= k < 28 ==> r'[k] == r[k]
  {
    r[CharAt(i) := v % 256][CharAt(i) + 1 := v / 256]
  }

  /** The character stored at index `n` of a name's entries: the byte, a terminator
      after the last one, padding after that. */
  function Stored(name: seq<Byte>, n: nat): nat {
    if n < |name| then name[n] else if n == |name| then 0 else 0xFFFF
  }

  /** Entry `order` of `total` for a name whose short name has the given checksum. */
  ghost predicate IsPart(r: Raw, name: seq<Byte>, total: nat, order: nat, checksum: Byte) {
    && 1 <= order <= total && r[0] == order + (if order == total then LAST_FLAG else 0)
    && r[11] == ATTR_LFN && r[12] == 0 && r[13] == checksum && r[26] == 0 && r[27] == 0
    && forall i {:trigger Unit(r, i)} :: 0 <= i < 13 ==> Unit(r, i) == Stored(name, 13 * (order - 1) + i)
  }

  method PopulatePart(name: seq<Byte>, total: nat, order: nat, checksum: Byte) returns (r: Raw)
    requires 1 <= order <= total <= 20
    ensures IsPart(r, name, total, order, checksum)
  {
    r := seq(32, _ => 0xFF);
    r := r[0 := order + (if order == total then LAST_FLAG else 0)];
    r := r[11 := ATTR_LFN][12 := 0][13 := checksum][26 := 0][27 := 0];
    for i := 0 to 13
      invariant r[0] == order + (if order == total then LAST_FLAG else 0)
      invariant r[11] == ATTR_LFN && r[12] == 0 && r[13] == checksum && r[26] == 0 && r[27] == 0
      invariant forall j {:trigger Unit(r, j)} :: 0 <= j < i ==> Unit(r, j) == Stored(name, 13 * (order - 1) + j)
    {
      r := WithUnit(r, i, Stored(name, 13 * (order - 1) + i));
    }
  }

  /** There is only one such entry. */
  lemma OnePart(r: Raw, r': Raw, name: seq<Byte>, total: nat, order: nat, checksum: Byte)
    requires IsPart(r, name, total, order, checksum) && IsPart(r', name, total, order, checksum)
    ensures r' == r
  {
    forall k | 0 <= k < 32 ensures r'[k] == r[k] {
      if 1 <= k < 11 {
        assert Unit(r, (k - 1) / 2) == Unit(r', (k - 1) / 2);
      } else if 14 <= k < 26 {
        assert Unit(r, 5 + (k - 14) / 2) == Unit(r', 5 + (k - 14) / 2);
      } else if 28 <= k {
        assert Unit(r, 11 + (k - 28) / 2) == Unit(r', 11 + (k - 28) / 2);
      }
    }
  }

  // ----- capturing -----

  /** What a directory scan has gathered of a long name so far. */
  datatype LfnState = LfnState(name: seq<Byte>, valid: bool, checksum: nat, nextOrder: nat, total: nat)

  function Blank(): LfnState { LfnState(seq(NAME_SIZE, _ => 0), false, 0, 0, 0) }

  /** Stores one character; fails at the last byte of the buffer. */
  method AppendChar(dst: seq<Byte>, index: nat, value: nat) returns (ok: bool, dst': seq<Byte>)
    requires |dst| == NAME_SIZE && value < 0x1_0000
    ensures ok <==> index + 1 < NAME_SIZE
    ensures dst' == if ok then dst[index := CharOf(value)] else dst
  {
    if index + 1 >= |dst| {
      return false, dst;
    }
    if value == 0 || value == 0xFFFF {
      return true, dst[index := 0];
    }
    return true, dst[index := if value < 256 then value else '?' as nat];
  }

  function CharOf(value: nat): Byte {
    if value == 0 || value == 0xFFFF then 0 else if value < 256 then value else '?' as nat
  }

  /** The state from which an entry continues, if it does: a last-part entry starts
      afresh. */
  function Started(s: LfnState, r: Raw): LfnState {
    var order := r[0] % 32;
    if r[0] / LAST_FLAG % 2 == 1 then LfnState(seq(NAME_SIZE, _ => 0), true, r[13], order, order) else s
  }

  /** The entry is one that fits what has been gathered. */
  predicate Accepts(s: LfnState, r: Raw) {
    var order := r[0] % 32;
    var s1 := Started(s, r);
    && r[11] == ATTR_LFN && 1 <= order <= 20 && r[12] == 0
    && s1.valid && s1.checksum == r[13] && s1.nextOrder == order
    && 13 * order < NAME_SIZE
  }

  /** The gathered name with the 13 characters of entry `order` filled in. */
  ghost predicate Filled(was: seq<Byte>, now: seq<Byte>, r: Raw, order: nat, n: nat) {
    && |was| == |now| == NAME_SIZE && 1 <= order && n <= 13
    && forall k {:trigger now[k]} :: 0 <= k < NAME_SIZE ==>
         var at := k - 13 * (order - 1);
         now[k] == if 0 <= at < n then CharOf(Unit(r, at)) else was[k]
  }

  ghost function FillName(was: seq<Byte>, r: Raw, order: nat): (now: seq<Byte>)
    requires |was| == NAME_SIZE && order >= 1
    ensures Filled(was, now, r, order, 13)
  {
    seq<Byte>(NAME_SIZE, k requires 0 <= k < NAME_SIZE => FillAt(was, r, order, k))
  }

  ghost function FillAt(was: seq<Byte>, r: Raw, order: nat, k: nat): Byte
    requires |was| == NAME_SIZE && order >= 1 && k < NAME_SIZE
  {
    if 13 * (order - 1) <= k < 13 * (order - 1) + 13 then CharOf(Unit(r, k - 13 * (order - 1))) else was[k]
  }

  /** The state after an entry has been looked at. */
  ghost function Captured(s: LfnState, r: Raw): (s': LfnState)
    requires |s.name| == NAME_SIZE
    ensures |s'.name| == NAME_SIZE
  {
    if Accepts(s, r)
    then var s1 := Started(s, r); s1.(name := FillName(s1.name, r, s1.nextOrder), nextOrder := s1.nextOrder - 1)
    else Blank()
  }

  method Capture(s: LfnState, r: Raw) returns (ok: bool, s': LfnState)
    requires |s.name| == NAME_SIZE
    ensures ok <==> Accepts(s, r)
    ensures s' == Captured(s, r)
  {
    if r[11] != ATTR_LFN {
      return false, Blank();
    }
    var order := r[0] % 32;
    if order == 0 || order > 20 || r[12] != 0 {
      return false, Blank();
    }
    s' := Started(s, r);
    if !s'.valid || s'.checksum != r[13] || s'.nextOrder != order {
      return false, Blank();
    }
    ghost var was := s'.name;
    for i := 0 to 13
      invariant s' == Started(s, r).(name := s'.name) && Filled(was, s'.name, r, order, i)
      invariant i > 0 ==> 13 * (order - 1) + i < NAME_SIZE
    {
      var stored, name := AppendChar(s'.name, 13 * (order - 1) + i, Unit(r, i));
      if !stored {
        return false, Blank();
      }
      s' := s'.(name := name);
    }
    assert s'.name == FillName(was, r, order);
    s' := s'.(nextOrder := s'.nextOrder - 1);
    ok := true;
  }

  // ----- round trip -----

  /** The entries of a name in the order they are written: last part first. */
  ghost predicate AreParts(parts: seq<Raw>, name: seq<Byte>, checksum: Byte) {
    && |parts| == (|name| + 12) / 13
    && forall i {:trigger parts[i]} :: 0 <= i < |parts| ==> IsPart(parts[i], name, |parts|, |parts| - i, checksum)
  }

  ghost function CaptureAll(s: LfnState, parts: seq<Raw>): (s': LfnState)
    requires |s.name| == NAME_SIZE
    ensures |s'.name| == NAME_SIZE
    decreases |parts|
  {
    if parts == [] then s else CaptureAll(Captured(s, parts[0]), parts[1..])
  }

  /** The name from character `from` on, in place, and zeros elsewhere. */
  ghost function Tail(name: seq<Byte>, from: nat): (b: seq<Byte>)
    ensures |b| == NAME_SIZE && forall k :: 0 <= k < NAME_SIZE ==> b[k] == if from <= k < |name| then name[k] else 0
  {
    seq<Byte>(NAME_SIZE, k requires 0 <= k < NAME_SIZE => if from <= k < |name| then name[k] else 0)
  }

  /** What has been gathered when `left` parts of `total` are still to come. */
  ghost function Gathered(name: seq<Byte>, total: nat, left: nat, checksum: Byte): LfnState {
    LfnState(Tail(name, 13 * left), true, checksum, left, total)
  }

  lemma StoredChar(name: seq<Byte>, n: nat)
    requires 0 !in name
    ensures CharOf(Stored(name, n)) == if n < |name| then name[n] else 0
  {
    assert n < |name| ==> name[n] in name;
  }

  /** One more part. */
  lemma CapturePart(s: LfnState, r: Raw, name: seq<Byte>, total: nat, order: nat, checksum: Byte)
    requires 0 !in name && IsPart(r, name, total, order, checksum) && 13 * total < NAME_SIZE && |name| <= 13 * total
    requires order < total ==> s == Gathered(name, total, order, checksum)
    requires |s.name| == NAME_SIZE
    ensures Captured(s, r) == Gathered(name, total, order - 1, checksum)
  {
    assert r[0] % 32 == order && r[0] / LAST_FLAG % 2 == (if order == total then 1 else 0);
    var s1 := Started(s, r);
    assert s1 == Gathered(name, total, order, checksum).(name := s1.name) && s1.name == Tail(name, 13 * order);
    var now := FillName(s1.name, r, order);
    forall k | 0 <= k < NAME_SIZE ensures now[k] == Tail(name, 13 * (order - 1))[k] {
      if 13 * (order - 1) <= k < 13 * order {
        assert Unit(r, k - 13 * (order - 1)) == Stored(name, k);
        StoredChar(name, k);
      }
    }
  }

  lemma {:induction false} CaptureParts(s: LfnState, parts: seq<Raw>, name: seq<Byte>, checksum: Byte, i: nat)
    requires 0 !in name && AreParts(parts, name, checksum) && 13 * |parts| < NAME_SIZE && i < |parts|
    requires |s.name| == NAME_SIZE
    requires i > 0 ==> s == Gathered(name, |parts|, |parts| - i, checksum)
    ensures CaptureAll(s, parts[i..]) == Gathered(name, |parts|, 0, checksum)
    decreases |parts| - i
  {
    var rest := parts[i..];
    assert rest[0] == parts[i] && rest[1..] == parts[i + 1..];
    CapturePart(s, parts[i], name, |parts|, |parts| - i, checksum);
    if i + 1 < |parts| {
      CaptureParts(Captured(s, parts[i]), parts, name, checksum, i + 1);
    } else {
      assert parts[i + 1..] == [];
    }
  }

  /** The parts of a name of 1 to 247 bytes are captured back to exactly that name,
      whatever was gathered before. */
  lemma NameRoundTrip(s: LfnState, parts: seq<Raw>, name: seq<Byte>, checksum: Byte)
    requires 0 !in name && 1 <= |name| <= 247 && AreParts(parts, name, checksum) && |s.name| == NAME_SIZE
    ensures var s' := CaptureAll(s, parts);
            s'.valid && s'.nextOrder == 0 && s'.checksum == checksum && s'.total == |parts| && CStr(s'.name) == name
              && s'.name[0] != 0
  {
    CaptureParts(s, parts, name, checksum, 0);
    assert parts[0..] == parts;
    WholeName(name);
  }

  lemma WholeName(name: seq<Byte>)
    requires 0 !in name && 1 <= |name| <= NAME_SIZE
    ensures CStr(Tail(name, 0)) == name && Tail(name, 0)[0] != 0
  {
    assert Tail(name, 0) == name + Zeros(NAME_SIZE - |name|);
    CStrPadded(name, NAME_SIZE - |name|);
    assert name[0] in name;
  }

  /** Longer names, up to the 260 bytes that twenty entries hold, are lost. */
  lemma LongNameLost(s: LfnState, parts: seq<Raw>, name: seq<Byte>, checksum: Byte)
    requires 248 <= |name| <= 260 && AreParts(parts, name, checksum) && |s.name| == NAME_SIZE
    ensures CaptureAll(s, parts) == Blank()
  {
    assert IsPart(parts[0], name, 20, 20, checksum);
    assert parts[0][0] % 32 == 20;
    assert !Accepts(s, parts[0]);
    LostParts(parts, name, checksum, 1);
  }

  lemma {:induction false} LostParts(parts: seq<Raw>, name: seq<Byte>, checksum: Byte, i: nat)
    requires AreParts(parts, name, checksum) && 1 <= i <= |parts| <= 20
    ensures CaptureAll(Blank(), parts[i..]) == Blank()
    decreases |parts| - i
  {
    if i < |parts| {
      var rest := parts[i..];
      assert rest[0] == parts[i] && rest[1..] == parts[i + 1..];
      assert IsPart(parts[i], name, |parts|, |parts| - i, checksum);
      assert parts[i][0] / LAST_FLAG % 2 == 0 && !Accepts(Blank(), parts[i]);
      LostParts(parts, name, checksum, i + 1);
    }
  }
}
