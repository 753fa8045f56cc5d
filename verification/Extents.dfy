/** Extents and the logical-to-physical block map they describe.  Both NXFS
    implementations keep a fixed array of extents in each inode. */
module Extents {
  datatype Extent = Extent(start: nat, len: nat)

  const NO_EXTENT := Extent(0, 0)

  /** The `len` consecutive block numbers from `start` on. */
  function Run(start: nat, len: nat): (r: seq<nat>)
    ensures |r| == len
    ensures forall i :: 0 <= i < len ==> r[i] == start + i
  {
    seq(len, i => start + i)
  }

  lemma InRun(start: nat, len: nat, x: nat)
    ensures x in Run(start, len) <==> start <= x < start + len
  {
    if start <= x < start + len {
      assert Run(start, len)[x - start] == x;
    }
  }

  /** Physical block numbers in logical order. */
  function Phys(es: seq<Extent>): seq<nat> {
    if es == [] then [] else Run(es[0].start, es[0].len) + Phys(es[1..])
  }

  /** Every extent in use comes before every empty one. */
  ghost predicate Packed(es: seq<Extent>) {
    forall i, j :: 0 <= i < j < |es| && es[i].len == 0 ==> es[j].len == 0
  }

  ghost predicate Within(s: seq<nat>, lo: nat, hi: nat) {
    forall i :: 0 <= i < |s| ==> lo <= s[i] < hi
  }

  ghost predicate Differ<T>(x: T, y: T) { x != y }

  ghost predicate NoDup<T>(s: seq<T>) {
    forall i, j {:trigger Differ(s[i], s[j])} :: 0 <= i < j < |s| ==> Differ(s[i], s[j])
  }

  ghost predicate Disjoint<T>(s: seq<T>, t: seq<T>) {
    forall x :: x in s ==> x !in t
  }

  lemma NoDupConcat<T>(s: seq<T>, t: seq<T>)
    requires NoDup(s) && NoDup(t) && Disjoint(s, t)
    ensures NoDup(s + t)
  {
    forall i, j | 0 <= i < j < |s + t|
      ensures Differ((s + t)[i], (s + t)[j])
    {
      if j < |s| {
        assert Differ(s[i], s[j]);
      } else if |s| <= i {
        assert Differ(t[i - |s|], t[j - |s|]);
      } else {
        assert s[i] in s && t[j - |s|] in t;
      }
    }
  }

  lemma {:induction false} PhysSplit(es: seq<Extent>, k: nat)
    requires k <= |es|
    ensures Phys(es) == Phys(es[..k]) + Phys(es[k..])
  {
    if k == 0 {
      assert es[..0] == [] && es[0..] == es;
    } else {
      PhysSplit(es[1..], k - 1);
      assert es[..k][1..] == es[1..][..k-1];
      assert es[1..][k-1..] == es[k..];
    }
  }

  lemma PhysAt(es: seq<Extent>, k: nat)
    requires k < |es|
    ensures Phys(es) == Phys(es[..k]) + Run(es[k].start, es[k].len) + Phys(es[k+1..])
  {
    PhysSplit(es, k);
    var tail := es[k..];
    assert tail[0] == es[k] && tail[1..] == es[k+1..];
    ConcatAssoc(Phys(es[..k]), Run(es[k].start, es[k].len), Phys(es[k+1..]));
  }

  lemma ConcatAssoc<T>(a: seq<T>, b: seq<T>, c: seq<T>)
    ensures a + (b + c) == a + b + c
  {}

  lemma PhysSnoc(es: seq<Extent>, k: nat)
    requires k < |es|
    ensures Phys(es[..k+1]) == Phys(es[..k]) + Run(es[k].start, es[k].len)
  {
    var front := es[..k+1];
    PhysAt(front, k);
    assert front[..k] == es[..k] && front[k+1..] == [] && front[k] == es[k];
  }

  lemma {:induction false} PhysEmpty(es: seq<Extent>)
    requires forall i :: 0 <= i < |es| ==> es[i].len == 0
    ensures Phys(es) == []
  {
    if es != [] {
      PhysEmpty(es[1..]);
    }
  }

  /** Lengthening the last extent in use, or filling the slot right after it,
      appends the new run to the block map. */
  lemma PhysExtend(es: seq<Extent>, k: nat, e: Extent, start: nat, n: nat)
    requires k < |es|
    requires forall i :: k < i < |es| ==> es[i].len == 0
    requires Run(e.start, e.len) == Run(es[k].start, es[k].len) + Run(start, n)
    ensures Phys(es[k := e]) == Phys(es) + Run(start, n)
  {
    PhysAt(es, k);
    PhysAt(es[k := e], k);
    PhysEmpty(es[k+1..]);
    assert es[k := e][..k] == es[..k] && es[k := e][k+1..] == es[k+1..];
  }

  /** Number of blocks an extent array describes. */
  method BlockCount(es: seq<Extent>) returns (total: nat)
    ensures total == |Phys(es)|
  {
    total := 0;
    for i := 0 to |es|
      invariant total == |Phys(es[..i])|
    {
      PhysSnoc(es, i);
      total := total + es[i].len;
    }
    assert es[..|es|] == es;
  }

  /** Translates a logical block number; -1 when it is past the last block. */
  method LogicalToPhysical(es: seq<Extent>, logical: nat) returns (phys: int)
    ensures phys == if logical < |Phys(es)| then Phys(es)[logical] else -1
  {
    var base := 0;
    for i := 0 to |es|
      invariant base == |Phys(es[..i])| <= logical
    {
      PhysSnoc(es, i);
      PhysSplit(es, i + 1);
      if logical < base + es[i].len {
        return es[i].start + (logical - base);
      }
      base := base + es[i].len;
    }
    assert es[..|es|] == es;
    return -1;
  }
}
