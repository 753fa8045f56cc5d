/** File contents as byte sequences, stored in 512-byte blocks given by their
    numbers in logical order. */
module Contents {
  import opened Bitmap
  import opened Extents

  /** Two disks agree on some blocks. */
  ghost predicate SameOn(d: seq<Block>, d': seq<Block>, phys: seq<nat>)
    requires Within(phys, 0, |d|)
  {
    |d'| == |d| && forall i :: 0 <= i < |phys| ==> d'[phys[i]] == d[phys[i]]
  }

  function ByteAt(disk: seq<Block>, phys: seq<nat>, k: nat): Byte {
    if k / 512 < |phys| && phys[k / 512] < |disk| then disk[phys[k / 512]][k % 512] else 0
  }

  ghost predicate IsContent(disk: seq<Block>, phys: seq<nat>, size: nat, s: seq<Byte>) {
    |s| == size && forall k {:trigger ByteAt(disk, phys, k)} :: 0 <= k < size ==> s[k] == ByteAt(disk, phys, k)
  }

  /** The bytes of a file of `size` bytes stored in the blocks `phys`. */
  ghost function Content(disk: seq<Block>, phys: seq<nat>, size: nat): (s: seq<Byte>)
    ensures IsContent(disk, phys, size, s)
  {
    assert IsContent(disk, phys, size, seq(size, k requires 0 <= k => ByteAt(disk, phys, k)));
    var s :| IsContent(disk, phys, size, s);
    s
  }

  lemma ContentKept(d: seq<Block>, d': seq<Block>, phys: seq<nat>, size: nat)
    requires Within(phys, 0, |d|) && SameOn(d, d', phys)
    ensures Content(d', phys, size) == Content(d, phys, size)
  {
    forall k | 0 <= k < size ensures Content(d', phys, size)[k] == Content(d, phys, size)[k] {
      assert ByteAt(d', phys, k) == ByteAt(d, phys, k);
    }
  }

  /** `s` zero-padded to `offset` and overwritten there by `buf`. */
  ghost function Overwrite(s: seq<Byte>, offset: nat, buf: seq<Byte>): (r: seq<Byte>)
    ensures |r| == Max(|s|, offset + |buf|)
    ensures forall k :: 0 <= k < |r| ==>
      r[k] == if offset <= k < offset + |buf| then buf[k - offset] else if k < |s| then s[k] else 0
  {
    seq(Max(|s|, offset + |buf|), k requires 0 <= k =>
      if offset <= k < offset + |buf| then buf[k - offset] else if k < |s| then s[k] else 0)
  }

  /** The blocks `phys` on `d` are those on `d1` with the part of `buf` below
      `upTo` written at `offset`. */
  ghost predicate Patched(d1: seq<Block>, d: seq<Block>, phys: seq<nat>, offset: nat, buf: seq<Byte>, upTo: nat) {
    forall k {:trigger ByteAt(d, phys, k)} :: 0 <= k < 512 * |phys| ==>
      ByteAt(d, phys, k) == if offset <= k < offset + |buf| && k < upTo then buf[k - offset] else ByteAt(d1, phys, k)
  }

  /** Only blocks of `phys` differ. */
  ghost predicate Confined(d1: seq<Block>, d: seq<Block>, phys: seq<nat>) {
    |d| == |d1| && forall b {:trigger d[b]} :: 0 <= b < |d| && b !in phys ==> d[b] == d1[b]
  }

  /** Writing the window of block `i`. */
  lemma PatchStep(d1: seq<Block>, d: seq<Block>, phys: seq<nat>, offset: nat, buf: seq<Byte>, i: nat, blk: Block)
    requires Within(phys, 0, |d|) && NoDup(phys) && i < |phys|
    requires Patched(d1, d, phys, offset, buf, 512 * i) && Confined(d1, d, phys)
    requires forall k :: 0 <= k < 512 ==>
      blk[k] == if offset <= 512 * i + k < offset + |buf| then buf[512 * i + k - offset] else d[phys[i]][k]
    ensures Patched(d1, d[phys[i] := blk], phys, offset, buf, 512 * i + 512) && Confined(d1, d[phys[i] := blk], phys)
  {
    var d' := d[phys[i] := blk];
    forall k | 0 <= k < 512 * |phys|
      ensures ByteAt(d', phys, k) ==
        if offset <= k < offset + |buf| && k < 512 * i + 512 then buf[k - offset] else ByteAt(d1, phys, k)
    {
      assert ByteAt(d, phys, k) ==
        if offset <= k < offset + |buf| && k < 512 * i then buf[k - offset] else ByteAt(d1, phys, k);
      if k / 512 != i {
        assert Differ(phys[Min(k / 512, i)], phys[Max(k / 512, i)]);
      } else {
        assert k == 512 * i + k % 512;
      }
    }
    assert phys[i] in phys;
  }

  /** Once the whole buffer is written, later blocks need no change. */
  lemma PatchedAll(d1: seq<Block>, d: seq<Block>, phys: seq<nat>, offset: nat, buf: seq<Byte>, upTo: nat, done: nat)
    requires Patched(d1, d, phys, offset, buf, upTo) && done == Max(0, Min(upTo, offset + |buf|) - offset)
    requires done >= |buf| || upTo >= 512 * |phys|
    ensures Patched(d1, d, phys, offset, buf, 512 * |phys|)
  {
  }

  /** Bytes of a file that grew by zero-filled blocks. */
  lemma GrownByte(d0: seq<Block>, d1: seq<Block>, phys: seq<nat>, added: seq<nat>, k: nat)
    requires Within(phys, 0, |d0|) && SameOn(d0, d1, phys)
    requires Within(added, 0, |d1|) && forall i :: 0 <= i < |added| ==> d1[added[i]] == ZeroBlock()
    ensures ByteAt(d1, phys + added, k) == if k < 512 * |phys| then ByteAt(d0, phys, k) else 0
  {
    if k / 512 < |phys| {
      assert (phys + added)[k / 512] == phys[k / 512];
    } else if k / 512 < |phys + added| {
      assert (phys + added)[k / 512] == added[k / 512 - |phys|];
    }
  }

  /** `out` holds the bytes of the blocks `phys` from byte `from` on. */
  ghost predicate Fetched(disk: seq<Block>, phys: seq<nat>, from: nat, out: seq<Byte>) {
    forall j {:trigger ByteAt(disk, phys, from + j)} {:trigger out[j]} :: 0 <= j < |out| ==>
      out[j] == ByteAt(disk, phys, from + j)
  }

  /** `n` logical blocks from `i` on lie on consecutive physical blocks. */
  ghost predicate Contiguous(phys: seq<nat>, i: nat, n: nat) {
    i + n <= |phys| && forall m {:trigger phys[m]} :: i <= m < i + n ==> phys[m] == phys[i] + (m - i)
  }

  lemma RunFetched(disk: seq<Block>, phys: seq<nat>, i: nat, n: nat, out: seq<Byte>)
    requires Contiguous(phys, i, n) && n > 0 && phys[i] + n <= |disk| && |out| == 512 * n
    requires forall j :: 0 <= j < |out| ==> out[j] == disk[phys[i] + j / 512][j % 512]
    ensures Fetched(disk, phys, 512 * i, out)
  {
    forall j | 0 <= j < |out| ensures out[j] == ByteAt(disk, phys, 512 * i + j) {
      assert (512 * i + j) / 512 == i + j / 512 && (512 * i + j) % 512 == j % 512;
      assert phys[i + j / 512] == phys[i] + j / 512;
    }
  }

  lemma PartFetched(disk: seq<Block>, phys: seq<nat>, i: nat, from: nat, out: seq<Byte>)
    requires i < |phys| && phys[i] < |disk| && 512 * i <= from && from + |out| <= 512 * i + 512
    requires out == disk[phys[i]][from - 512 * i..from - 512 * i + |out|]
    ensures Fetched(disk, phys, from, out)
  {
    forall j | 0 <= j < |out| ensures out[j] == ByteAt(disk, phys, from + j) {
      assert (from + j) / 512 == i && (from + j) % 512 == from + j - 512 * i;
    }
  }

  lemma FetchedMore(disk: seq<Block>, phys: seq<nat>, from: nat, out: seq<Byte>, more: seq<Byte>)
    requires Fetched(disk, phys, from, out) && Fetched(disk, phys, from + |out|, more)
    ensures Fetched(disk, phys, from, out + more)
  {
    forall j | 0 <= j < |out + more| ensures (out + more)[j] == ByteAt(disk, phys, from + j) {
      if j >= |out| {
        assert more[j - |out|] == ByteAt(disk, phys, from + |out| + (j - |out|));
      }
    }
  }

  lemma ReadWhole(disk: seq<Block>, phys: seq<nat>, size: nat, offset: nat, end: nat, out: seq<Byte>)
    requires Fetched(disk, phys, offset, out) && offset + |out| == end <= size
    ensures out == Content(disk, phys, size)[offset..end]
  {
    forall j | 0 <= j < |out| ensures out[j] == Content(disk, phys, size)[offset + j] {
      assert ByteAt(disk, phys, offset + j) == Content(disk, phys, size)[offset + j];
    }
  }
}
