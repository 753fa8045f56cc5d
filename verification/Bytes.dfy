/** Little-endian numbers and C strings in byte buffers. */
module Bytes {
  import opened Bitmap

  /** A little-endian number. */
  function LittleEndian(b: seq<Byte>): nat {
    if b == [] then 0 else b[0] as int + 256 * LittleEndian(b[1..])
  }

  function Pow256(k: nat): nat {
    if k == 0 then 1 else 256 * Pow256(k - 1)
  }

  function LittleEndianBytes(n: nat, k: nat): (b: seq<Byte>)
    ensures |b| == k
    ensures n < Pow256(k) ==> LittleEndian(b) == n
  {
    if k == 0 then [] else [n % 256] + LittleEndianBytes(n / 256, k - 1)
  }

  /** The C string at the start of a buffer. */
  function CStr(b: seq<Byte>): seq<Byte> {
    if b == [] || b[0] == 0 then [] else [b[0]] + CStr(b[1..])
  }

  function Zeros(n: nat): (z: seq<Byte>)
    ensures |z| == n && forall i :: 0 <= i < n ==> z[i] == 0
  {
    seq(n, _ => 0)
  }

  lemma {:induction false} CStrPadded(name: seq<Byte>, n: nat)
    requires 0 !in name
    ensures CStr(name + Zeros(n)) == name
  {
    if name != [] {
      CStrPadded(name[1..], n);
      assert (name + Zeros(n))[1..] == name[1..] + Zeros(n);
    }
  }

  lemma {:induction false} LittleEndianBound(b: seq<Byte>)
    ensures LittleEndian(b) < Pow256(|b|)
  {
    if b != [] {
      LittleEndianBound(b[1..]);
    }
  }

  /** The 32-bit word at index `i` of a block. */
  function Word(blk: Block, i: nat): (w: nat)
    requires i < 128
    ensures w < 0x1_0000_0000
  {
    LittleEndianBound(blk[4 * i..4 * i + 4]);
    assert Pow256(2) == 65536 && Pow256(4) == 0x1_0000_0000;
    LittleEndian(blk[4 * i..4 * i + 4])
  }

  function WithWord(blk: Block, i: nat, v: nat): (r: Block)
    requires i < 128 && v < 0x1_0000_0000
    ensures forall j :: 0 <= j < 128 ==> Word(r, j) == if j == i then v else Word(blk, j)
  {
    var r: Block := blk[..4 * i] + LittleEndianBytes(v, 4) + blk[4 * i + 4..];
    assert forall j :: 0 <= j < 128 ==> Word(r, j) == if j == i then v else Word(blk, j) by {
      forall j | 0 <= j < 128 ensures Word(r, j) == if j == i then v else Word(blk, j) { WordWritten(blk, i, v, j); }
    }
    r
  }

  lemma WordWritten(blk: Block, i: nat, v: nat, j: nat)
    requires i < 128 && v < 0x1_0000_0000 && j < 128
    ensures var r: Block := blk[..4 * i] + LittleEndianBytes(v, 4) + blk[4 * i + 4..];
            Word(r, j) == if j == i then v else Word(blk, j)
  {
    var r: Block := blk[..4 * i] + LittleEndianBytes(v, 4) + blk[4 * i + 4..];
    assert Pow256(2) == 65536 && Pow256(4) == 0x1_0000_0000;
    if j == i {
      assert r[4 * j..4 * j + 4] == LittleEndianBytes(v, 4);
    } else {
      assert r[4 * j..4 * j + 4] == blk[4 * j..4 * j + 4];
    }
  }
}
