/** FAT32 short names and aliases (fs/fat32_name.c; section 7 of the Microsoft FAT
    Specification). */
module FatAlias {
  import opened Bitmap
  import opened FatNames
  import opened FatDirs

  const TILDE: Byte := 126
  const UNDERSCORE: Byte := 95
  const SERIALS := 1_000_000

  // ----- characters -----

  function Upper(b: Byte): Byte { if 'a' as nat <= b <= 'z' as nat then b - 32 else b }

  /** Letters, digits and $ % ' - _ @ ~ ` ! ( ) { } ^ # &. */
  predicate Allowed(b: Byte) {
    var c := Upper(b);
    || 'A' as nat <= c <= 'Z' as nat || '0' as nat <= c <= '9' as nat
    || c in {36, 37, 39, 45, 95, 64, 126, 96, 33, 40, 41, 123, 125, 94, 35, 38}
  }

  function Sanitize(b: Byte): Byte { if Allowed(Upper(b)) then Upper(b) else UNDERSCORE }

  lemma SanitizedSafe(b: Byte)
    ensures var c := Sanitize(b); c != 0 && c != 0xE5 && c != SPACE && c != PERIOD
  {}

  function SanitizeAll(s: seq<Byte>): (r: seq<Byte>)
    ensures |r| == |s| && forall i :: 0 <= i < |s| ==> r[i] == Sanitize(s[i])
  {
    seq(|s|, i requires 0 <= i < |s| => Sanitize(s[i]))
  }

  function Pad(s: seq<Byte>, n: nat): (r: seq<Byte>)
    requires |s| <= n
    ensures |r| == n && r[..|s|] == s && forall i :: |s| <= i < n ==> r[i] == SPACE
  {
    s + seq(n - |s|, _ => SPACE)
  }

  // ----- decimal digits -----

  function Digits(n: nat): (d: seq<Byte>)
    ensures |d| >= 1 && forall i :: 0 <= i < |d| ==> 48 <= d[i] <= 57
  {
    if n < 10 then [48 + n] else Digits(n / 10) + [48 + n % 10]
  }

  ghost function Value(d: seq<Byte>): nat
    requires forall i :: 0 <= i < |d| ==> 48 <= d[i] <= 57
  {
    if d == [] then 0 else 10 * Value(d[..|d| - 1]) + (d[|d| - 1] as int - 48)
  }

  lemma {:induction false} DigitsValue(n: nat)
    ensures Value(Digits(n)) == n
  {
    if n < 10 {
      assert Value([]) == 0;
      assert Digits(n)[..0] == [];
    } else {
      DigitsValue(n / 10);
      assert Digits(n)[..|Digits(n)| - 1] == Digits(n / 10);
    }
  }

  lemma {:induction false} DigitsLength(n: nat, k: nat)
    requires 1 <= k && n < Pow10(k)
    ensures |Digits(n)| <= k
  {
    if n >= 10 {
      DigitsLength(n / 10, k - 1);
    }
  }

  function Pow10(k: nat): nat { if k == 0 then 1 else 10 * Pow10(k - 1) }

  // ----- aliases -----

  /** The index of the last period, or -1. */
  ghost function LastDot(name: seq<Byte>): (d: int)
    ensures -1 <= d < |name| && (d >= 0 ==> name[d] == PERIOD)
    ensures forall i :: d < i < |name| ==> name[i] != PERIOD
  {
    if name == [] then -1
    else if name[|name| - 1] == PERIOD then |name| - 1
    else LastDot(name[..|name| - 1])
  }

  /** Up to eight characters before the last period, or an underscore. */
  ghost function Stem(name: seq<Byte>): (b: seq<Byte>)
    ensures 1 <= |b| <= 8 && forall i :: 0 <= i < |b| ==> b[i] != SPACE && b[i] != PERIOD && b[i] != 0 && b[i] != 0xE5
  {
    var d := LastDot(name);
    var s := if d < 0 then name else name[..d];
    var b := SanitizeAll(if |s| > 8 then s[..8] else s);
    assert forall i :: 0 <= i < |b| ==> b[i] != SPACE && b[i] != PERIOD && b[i] != 0 && b[i] != 0xE5;
    if b == [] then [UNDERSCORE] else b
  }

  /** Up to three characters after the last period. */
  ghost function Extension(name: seq<Byte>): (e: seq<Byte>)
    ensures |e| <= 3
  {
    var d := LastDot(name);
    if d < 0 then [] else var s := name[d + 1..]; SanitizeAll(if |s| > 3 then s[..3] else s)
  }

  ghost function PrefixLength(name: seq<Byte>, serial: nat): nat
    requires |Digits(serial)| <= 7
  {
    Min(7 - |Digits(serial)|, |Stem(name)|)
  }

  /** The eight columns of a numbered alias, without the padding. */
  ghost function Columns(name: seq<Byte>, serial: nat): (c: seq<Byte>)
    requires |Digits(serial)| <= 7
    ensures |c| <= 8
  {
    Stem(name)[..PrefixLength(name, serial)] + [TILDE] + Digits(serial)
  }

  ghost function Numbered(name: seq<Byte>, serial: nat): (r: seq<Byte>)
    requires |Digits(serial)| <= 7
    ensures |r| == 11
  {
    Pad(Columns(name, serial), 8) + Pad(Extension(name), 3)
  }

  /** Serial numbers up to 999999 have at most six digits. */
  lemma SerialFits(serial: nat)
    requires serial < SERIALS
    ensures |Digits(serial)| <= 6
  {
    assert Pow10(3) == 1000 && Pow10(6) == 1000 * Pow10(3);
    DigitsLength(serial, 6);
  }

  /** A column that ends in a tilde and digits determines the digits. */
  lemma LastTilde(a: seq<Byte>, x: seq<Byte>, b: seq<Byte>, y: seq<Byte>)
    requires |a| + 1 + |x| <= 8 && |b| + 1 + |y| <= 8 && AreDigits(x) && AreDigits(y)
    requires Pad(a + [TILDE] + x, 8) == Pad(b + [TILDE] + y, 8)
    ensures x == y
  {
    ColumnAt(a, x);
    ColumnAt(b, y);
    SameColumn(Pad(a + [TILDE] + x, 8), |a|, x, |b|, y);
  }

  ghost predicate AreDigits(x: seq<Byte>) { forall i :: 0 <= i < |x| ==> 48 <= x[i] <= 57 }

  /** The last tilde of `p` is in column `k`, the digits `x` follow it and blanks
      follow them. */
  ghost predicate Column(p: seq<Byte>, k: nat, x: seq<Byte>) {
    && |p| == 8 && k + 1 + |x| <= 8 && p[k] == TILDE && (forall m :: k < m < 8 ==> p[m] != TILDE)
    && p[k + 1..k + 1 + |x|] == x && forall m :: k + 1 + |x| <= m < 8 ==> p[m] == SPACE
  }

  lemma SameColumn(p: seq<Byte>, k: nat, x: seq<Byte>, j: nat, y: seq<Byte>)
    requires Column(p, k, x) && Column(p, j, y) && AreDigits(x) && AreDigits(y)
    ensures x == y
  {
    assert k == j;
    NoLonger(p, k, x, y);
    NoLonger(p, k, y, x);
  }

  /** The last digit is not where the blanks are. */
  lemma NoLonger(p: seq<Byte>, k: nat, x: seq<Byte>, y: seq<Byte>)
    requires Column(p, k, x) && Column(p, k, y) && AreDigits(y)
    ensures |y| <= |x|
  {
    if y != [] {
      assert p[k + |y|] == p[k + 1..k + 1 + |y|][|y| - 1] == y[|y| - 1];
    }
  }

  lemma ColumnAt(a: seq<Byte>, x: seq<Byte>)
    requires |a| + 1 + |x| <= 8 && AreDigits(x)
    ensures Column(Pad(a + [TILDE] + x, 8), |a|, x)
  {
    var s := a + [TILDE] + x;
    var p := Pad(s, 8);
    assert forall k :: 0 <= k < |s| ==> p[k] == p[..|s|][k] == s[k];
    assert p[|a| + 1..|a| + 1 + |x|] == s[|a| + 1..] == x;
  }

  /** The aliases of a name for different serial numbers are different. */
  lemma AliasesDistinct(name: seq<Byte>, s: nat, t: nat)
    requires s < SERIALS && t < SERIALS && |Digits(s)| <= 6 && |Digits(t)| <= 6
    requires Numbered(name, s) == Numbered(name, t)
    ensures s == t
  {
    var p, q := Pad(Columns(name, s), 8), Pad(Columns(name, t), 8);
    assert p == Numbered(name, s)[..8] && q == Numbered(name, t)[..8];
    LastTilde(Stem(name)[..PrefixLength(name, s)], Digits(s), Stem(name)[..PrefixLength(name, t)], Digits(t));
    DigitsValue(s);
    DigitsValue(t);
  }

  // ----- names that are short already -----

  /** The index of the first period, or the length. */
  ghost function FirstDot(name: seq<Byte>): (d: nat)
    ensures d <= |name| && (d < |name| ==> name[d] == PERIOD)
    ensures forall i :: 0 <= i < d ==> name[i] != PERIOD
  {
    if name == [] || name[0] == PERIOD then 0 else 1 + FirstDot(name[1..])
  }

  /** One to eight allowed characters, then nothing or a period and up to three more. */
  ghost predicate IsShortExact(name: seq<Byte>) {
    var d := FirstDot(name);
    1 <= d <= 8 && |name| <= d + 4 && forall i :: 0 <= i < |name| && i != d ==> Allowed(name[i])
  }

  method FitsShortExact(name: seq<Byte>) returns (fits: bool)
    ensures fits <==> IsShortExact(name)
  {
    if name == [] {
      return false;
    }
    var base, ext, inExt := 0, 0, false;
    for i := 0 to |name|
      invariant inExt <==> FirstDot(name) < i
      invariant inExt ==> base == FirstDot(name) && ext == i - base - 1
      invariant !inExt ==> base == i && ext == 0
      invariant base <= 8 && ext <= 3 && forall j :: 0 <= j < i && j != FirstDot(name) ==> Allowed(name[j])
    {
      var ch := name[i];
      if ch == PERIOD {
        if inExt {
          return false;
        }
        inExt := true;
        continue;
      }
      if !Allowed(ch) {
        return false;
      }
      if !inExt {
        base := base + 1;
        if base > 8 {
          return false;
        }
      } else {
        ext := ext + 1;
        if ext > 3 {
          return false;
        }
      }
    }
    return base != 0;
  }

  ghost function BaseOf(name: seq<Byte>): seq<Byte> { name[..FirstDot(name)] }

  ghost function ExtOf(name: seq<Byte>): seq<Byte> {
    if FirstDot(name) < |name| then name[FirstDot(name) + 1..] else []
  }

  /** The eleven bytes of a name that is short already. */
  ghost function Normalized(name: seq<Byte>): (r: seq<Byte>)
    requires IsShortExact(name)
    ensures |r| == 11
  {
    Pad(SanitizeAll(BaseOf(name)), 8) + Pad(SanitizeAll(ExtOf(name)), 3)
  }

  method Normalize(name: seq<Byte>) returns (out: seq<Byte>)
    requires IsShortExact(name)
    ensures out == Normalized(name)
  {
    out := seq(11, _ => SPACE);
    var namePos, extPos, inExt := 0, 8, false;
    ghost var d := FirstDot(name);
    for i := 0 to |name|
      invariant |out| == 11 && (inExt <==> d < i)
      invariant if inExt then namePos == d && extPos == 8 + (i - d - 1) else namePos == i && extPos == 8
      invariant forall k :: 0 <= k < namePos ==> out[k] == Sanitize(name[k])
      invariant forall k :: 8 <= k < extPos ==> out[k] == Sanitize(name[d + 1 + (k - 8)])
      invariant forall k :: namePos <= k < 8 || extPos <= k < 11 ==> out[k] == SPACE
    {
      var ch := name[i];
      if ch == PERIOD {
        inExt := true;
        continue;
      }
      if !inExt {
        if namePos < 8 {
          out := out[namePos := Sanitize(ch)];
          namePos := namePos + 1;
        }
      } else if extPos < 11 {
        out := out[extPos := Sanitize(ch)];
        extPos := extPos + 1;
      }
    }
    assert out[..8] == Pad(SanitizeAll(BaseOf(name)), 8);
    assert out[8..] == Pad(SanitizeAll(ExtOf(name)), 3);
    assert out == out[..8] + out[8..];
  }

  lemma {:induction false} UpToBlankPad(raw: seq<Byte>, s: seq<Byte>, n: nat)
    requires |s| <= n <= |raw| && raw[..n] == Pad(s, n) && SPACE !in s
    ensures UpToBlank(raw, n) == s
    decreases n
  {
    if n > 0 {
      assert raw[0] == raw[..n][0] == Pad(s, n)[0];
      if s != [] {
        assert Pad(s, n)[0] == Pad(s, n)[..|s|][0] == s[0] && s[0] in s;
        assert raw[1..][..n - 1] == raw[..n][1..];
        assert raw[..n][1..] == Pad(s[1..], n - 1);
        UpToBlankPad(raw[1..], s[1..], n - 1);
      }
    }
  }

  ghost predicate NoLowerCase(name: seq<Byte>) {
    forall i :: 0 <= i < |name| ==> !('a' as nat <= name[i] <= 'z' as nat)
  }

  ghost predicate AllAllowed(s: seq<Byte>) { forall i {:trigger Allowed(s[i])} :: 0 <= i < |s| ==> Allowed(s[i]) }

  lemma SanitizeKeeps(s: seq<Byte>)
    requires NoLowerCase(s) && AllAllowed(s)
    ensures SanitizeAll(s) == s && SPACE !in s && PERIOD !in s
  {
    forall i | 0 <= i < |s| ensures Sanitize(s[i]) == s[i] && s[i] != SPACE && s[i] != PERIOD {
      assert Allowed(s[i]);
    }
  }

  lemma Format83Of(r: Raw, base: seq<Byte>, ext: seq<Byte>)
    requires |base| <= 8 && |ext| <= 3 && SPACE !in base && SPACE !in ext && r[..11] == Pad(base, 8) + Pad(ext, 3)
    ensures Format83(r) == base + (if ext == [] then [] else [PERIOD] + ext)
  {
    assert r[..8] == r[..11][..8] && r[8..][..3] == r[..11][8..];
    UpToBlankPad(r, base, 8);
    UpToBlankPad(r[8..], ext, 3);
    assert r[8] == r[8..][..3][0] == Pad(ext, 3)[0];
    if ext != [] {
      assert Pad(ext, 3)[0] == Pad(ext, 3)[..|ext|][0] == ext[0] && ext[0] in ext;
    }
  }

  lemma PartKept(name: seq<Byte>, from: nat, to: nat)
    requires from <= to <= |name| && NoLowerCase(name) && forall i :: from <= i < to ==> Allowed(name[i])
    ensures var part := name[from..to]; SanitizeAll(part) == part && SPACE !in part && PERIOD !in part
  {
    var part := name[from..to];
    forall i | 0 <= i < |part| ensures Allowed(part[i]) && !('a' as nat <= part[i] <= 'z' as nat) {
      assert part[i] == name[from + i];
    }
    SanitizeKeeps(part);
  }

  lemma PartsOf(name: seq<Byte>)
    requires IsShortExact(name) && NoLowerCase(name)
    ensures var base, ext := BaseOf(name), ExtOf(name);
      && 1 <= |base| <= 8 && |ext| <= 3 && SanitizeAll(base) == base && SanitizeAll(ext) == ext
      && SPACE !in base && SPACE !in ext && PERIOD !in base && PERIOD !in ext
      && name == base + (if FirstDot(name) < |name| then [PERIOD] + ext else [])
  {
    var d, n := FirstDot(name), |name|;
    var from := Min(d + 1, n);
    assert Split(name, d, name[0..d], name[from..n]);
    PartKept(name, 0, d);
    PartKept(name, from, n);
    assert name[0..d] == BaseOf(name) && name[from..n] == ExtOf(name);
  }

  /** A name around its period, if it has one. */
  ghost predicate Split(name: seq<Byte>, d: nat, base: seq<Byte>, ext: seq<Byte>) {
    name == base + (if d < |name| then [PERIOD] + ext else [])
  }

  /** Writing a base and an extension with or without the period between them. */
  lemma LastOf(base: seq<Byte>, ext: seq<Byte>, dotted: bool)
    requires base != [] && PERIOD !in base && PERIOD !in ext && (!dotted ==> ext == [])
    ensures var name := base + (if dotted then [PERIOD] + ext else []);
      name == base + (if ext == [] then [] else [PERIOD] + ext) <==> name[|name| - 1] != PERIOD
  {
    var name := base + (if dotted then [PERIOD] + ext else []);
    if dotted && ext != [] {
      assert name[|name| - 1] == ext[|ext| - 1] && ext[|ext| - 1] in ext;
    } else if !dotted {
      assert name[|name| - 1] == base[|base| - 1] && base[|base| - 1] in base;
    }
  }

  /** A name that needs no long entry is read back from its short entry, unless it
      ends in a period. */
  lemma ShortNameRoundTrip(r: Raw, name: seq<Byte>)
    requires IsShortExact(name) && NoLowerCase(name) && r[..11] == Normalized(name)
    ensures Format83(r) == name <==> name[|name| - 1] != PERIOD
  {
    PartsOf(name);
    Format83Of(r, BaseOf(name), ExtOf(name));
    LastOf(BaseOf(name), ExtOf(name), FirstDot(name) < |name|);
  }

  // ----- building an alias -----

  method FindLastDot(name: seq<Byte>) returns (d: int)
    ensures d == LastDot(name)
  {
    d := -1;
    for i := 0 to |name|
      invariant d == LastDot(name[..i])
    {
      assert name[..i + 1][..i] == name[..i] && name[..i + 1][i] == name[i];
      if name[i] == PERIOD {
        d := i;
      }
    }
    assert name[..|name|] == name;
  }

  /** At most `max` sanitized characters from the start of `s`. */
  method TakeSanitized(s: seq<Byte>, max: nat) returns (r: seq<Byte>)
    ensures r == SanitizeAll(if |s| > max then s[..max] else s)
  {
    r := [];
    for i := 0 to |s|
      invariant |r| == Min(i, max) && forall k :: 0 <= k < |r| ==> r[k] == Sanitize(s[k])
    {
      var ch := Sanitize(s[i]);
      SanitizedSafe(s[i]);
      if ch != SPACE && ch != PERIOD && |r| < max {
        r := r + [ch];
      }
    }
  }

  /** The digits of a number, last one first. */
  method ReversedDigits(n: nat) returns (text: seq<Byte>)
    requires n < SERIALS
    ensures |text| == |Digits(n)| <= 6 && forall i :: 0 <= i < |text| ==> text[i] == Digits(n)[|text| - 1 - i]
  {
    SerialFits(n);
    var value := n;
    text := [48 + value % 10];
    value := value / 10;
    ghost var all := Digits(n);
    DigitsStep(n);
    while value != 0 && |text| < 8
      invariant |text| <= |all| <= 6 && (value == 0 <==> |text| == |all|)
      invariant value != 0 ==> Digits(value) == all[..|all| - |text|]
      invariant forall i :: 0 <= i < |text| ==> text[i] == all[|all| - 1 - i]
      decreases value
    {
      DigitsStep(value);
      text := text + [48 + value % 10];
      value := value / 10;
    }
  }

  lemma DigitsStep(n: nat)
    ensures var d := Digits(n);
      d[|d| - 1] == 48 + n % 10 && (n < 10 <==> |d| == 1) && (n >= 10 ==> d[..|d| - 1] == Digits(n / 10))
  {
    if n >= 10 {
      assert Digits(n)[..|Digits(n)| - 1] == Digits(n / 10);
    }
  }

  /** The name itself for serial 0 if it is short already, a numbered alias
      otherwise. */
  ghost function Alias(name: seq<Byte>, serial: nat): (r: seq<Byte>)
    requires serial < SERIALS
    ensures |r| == 11
  {
    SerialFits(serial);
    if serial == 0 && IsShortExact(name) then Normalized(name) else Numbered(name, serial)
  }

  method MakeShortAlias(name: seq<Byte>, serial: nat) returns (out: seq<Byte>)
    requires serial < SERIALS
    ensures out == Alias(name, serial)
  {
    var fits := FitsShortExact(name);
    if serial == 0 && fits {
      out := Normalize(name);
      return;
    }
    SerialFits(serial);
    var base, ext := StemAndExtension(name);
    var text := ReversedDigits(serial);
    var columns := FillColumns(base, text, Digits(serial));
    out := columns + Pad(ext, 3);
  }

  method StemAndExtension(name: seq<Byte>) returns (base: seq<Byte>, ext: seq<Byte>)
    ensures base == Stem(name) && ext == Extension(name)
  {
    var d := FindLastDot(name);
    base := TakeSanitized(if d < 0 then name else name[..d], 8);
    ext := [];
    if d >= 0 {
      ext := TakeSanitized(name[d + 1..], 3);
    }
    if base == [] {
      base := [UNDERSCORE];
    }
  }

  /** The stem cut to leave room, a tilde and the digits, padded to eight columns. */
  method FillColumns(base: seq<Byte>, text: seq<Byte>, ghost digits: seq<Byte>) returns (out: seq<Byte>)
    requires |base| <= 8 && |text| == |digits| <= 6 && forall i :: 0 <= i < |text| ==> text[i] == digits[|text| - 1 - i]
    ensures out == Pad(base[..Min(7 - |digits|, |base|)] + [TILDE] + digits, 8)
  {
    var prefix := 8 - (|text| + 1);
    if prefix > |base| {
      prefix := |base|;
    }
    out := seq(8, _ => SPACE);
    var pos := 0;
    while pos < prefix
      invariant 0 <= pos <= prefix && |out| == 8
      invariant forall k :: 0 <= k < 8 ==> out[k] == if k < pos then base[k] else SPACE
    {
      out := out[pos := base[pos]];
      pos := pos + 1;
    }
    out := out[pos := TILDE];
    pos := pos + 1;
    var left := |text|;
    while left > 0 && pos < 8
      invariant 0 <= left <= |text| && pos == prefix + 1 + (|text| - left) && |out| == 8
      invariant forall k :: 0 <= k < 8 ==> out[k] == if k < prefix then base[k] else if k == prefix then TILDE
                                                     else if k < pos then digits[k - prefix - 1] else SPACE
    {
      left := left - 1;
      out := out[pos := text[left]];
      pos := pos + 1;
    }
    ghost var s := base[..prefix] + [TILDE] + digits;
    ghost var p := Pad(s, 8);
    assert forall k :: 0 <= k < |s| ==> p[k] == p[..|s|][k] == s[k];
    assert out == p;
  }

  /** An alias never looks like an end mark or a deleted entry. */
  lemma AliasSafe(name: seq<Byte>, serial: nat)
    requires serial < SERIALS
    ensures Alias(name, serial)[0] != 0 && Alias(name, serial)[0] != 0xE5
  {
    SerialFits(serial);
    if serial == 0 && IsShortExact(name) {
      var base := SanitizeAll(BaseOf(name));
      SanitizedSafe(name[0]);
      assert Alias(name, serial)[0] == Pad(base, 8)[0] == Pad(base, 8)[..|base|][0] == base[0];
    } else {
      var c := Columns(name, serial);
      assert Alias(name, serial)[0] == Pad(c, 8)[0] == Pad(c, 8)[..|c|][0] == c[0] == Stem(name)[0];
    }
  }

  lemma PadNoPeriod(s: seq<Byte>, n: nat)
    requires |s| <= n && PERIOD !in s
    ensures PERIOD !in Pad(s, n)
  {
    forall i | 0 <= i < n ensures Pad(s, n)[i] != PERIOD {
      assert i < |s| ==> Pad(s, n)[..|s|][i] == s[i];
    }
  }

  lemma SanitizedNoPeriod(s: seq<Byte>)
    ensures PERIOD !in SanitizeAll(s)
  {
    forall i | 0 <= i < |s| ensures SanitizeAll(s)[i] != PERIOD { SanitizedSafe(s[i]); }
  }

  /** No short name that is chosen holds a period. */
  lemma AliasNoPeriod(name: seq<Byte>, serial: nat)
    requires serial < SERIALS
    ensures PERIOD !in Alias(name, serial)
  {
    SerialFits(serial);
    if serial == 0 && IsShortExact(name) {
      SanitizedNoPeriod(BaseOf(name));
      SanitizedNoPeriod(ExtOf(name));
      PadNoPeriod(SanitizeAll(BaseOf(name)), 8);
      PadNoPeriod(SanitizeAll(ExtOf(name)), 3);
    } else {
      PadNoPeriod(Columns(name, serial), 8);
      SanitizedNoPeriod(name[LastDot(name) + 1..]);
      var ext := name[LastDot(name) + 1..];
      SanitizedNoPeriod(if |ext| > 3 then ext[..3] else ext);
      PadNoPeriod(Extension(name), 3);
    }
  }

  /** Whether a name takes long entries. */
  ghost predicate NeedsLong(name: seq<Byte>) { !IsShortExact(name) || !NoLowerCase(name) }

  method NameNeedsLong(name: seq<Byte>) returns (needs: bool)
    ensures needs <==> NeedsLong(name)
  {
    var fits := FitsShortExact(name);
    if !fits {
      return true;
    }
    for i := 0 to |name|
      invariant NoLowerCase(name[..i])
    {
      if 'a' as nat <= name[i] <= 'z' as nat {
        return true;
      }
    }
    assert name[..|name|] == name;
    return false;
  }
}
