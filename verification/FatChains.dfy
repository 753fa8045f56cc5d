/** Cluster chains (fs/fat32_core.c, fs/fat32_dir.c): allocating, appending and
    freeing keep the table a set of disjoint, acyclic, terminated chains. */
module FatChains {
  import opened Bitmap
  import opened Extents
  import opened FatTable

  // ----- chains -----

  /** What follows position `i` of a chain: the next cluster, or an end mark. */
  ghost predicate Follows(f: seq<nat>, ch: seq<nat>, i: nat)
    requires i < |ch| && ch[i] < |f|
  {
    if i + 1 < |ch| then f[ch[i]] == ch[i + 1] else f[ch[i]] >= END
  }

  /** Distinct data clusters, each leading to the next, the last one marked as the
      end. */
  ghost predicate IsChain(f: seq<nat>, ch: seq<nat>) {
    && ch != [] && NoDup(ch) && Within(ch, 2, |f|)
    && forall i {:trigger Follows(f, ch, i)} :: 0 <= i < |ch| ==> Follows(f, ch, i)
  }

  ghost predicate Has(chains: set<seq<nat>>, ch: seq<nat>) { ch in chains }

  ghost predicate Covered(chains: set<seq<nat>>, c: nat) {
    exists ch {:trigger Has(chains, ch)} :: Has(chains, ch) && c in ch
  }

  /** The table consists of exactly the given chains, no two of which meet. */
  ghost predicate Forest(f: seq<nat>, chains: set<seq<nat>>) {
    && (forall ch {:trigger Has(chains, ch)} :: Has(chains, ch) ==> IsChain(f, ch))
    && (forall a: seq<nat>, b: seq<nat> {:trigger Has(chains, a), Has(chains, b)} ::
       Has(chains, a) && Has(chains, b) && a != b ==> Disjoint(a, b))
    && (forall c {:trigger Covered(chains, c)} :: 2 <= c < |f| && f[c] != 0 ==> Covered(chains, c))
  }

  /** A chain none of whose entries changed. */
  lemma ChainKept(f: seq<nat>, f': seq<nat>, ch: seq<nat>)
    requires IsChain(f, ch) && |f'| == |f| && forall i :: 0 <= i < |ch| ==> f'[ch[i]] == f[ch[i]]
    ensures IsChain(f', ch)
  {
    forall i | 0 <= i < |ch| ensures Follows(f', ch, i) {
      assert Follows(f, ch, i);
    }
  }

  /** A free cluster becomes a chain of its own. */
  lemma ForestAlloc(f: seq<nat>, chains: set<seq<nat>>, c: nat)
    requires Forest(f, chains) && 2 <= c < |f| && f[c] == 0
    ensures Forest(f[c := END], chains + {[c]}) && [c] !in chains
    ensures forall ch :: ch in chains ==> c !in ch
  {
    var f', all := f[c := END], chains + {[c]};
    forall ch | Has(chains, ch) ensures c !in ch && IsChain(f', ch) {
      FreeNotInChain(f, ch, c);
      ChainKept(f, f', ch);
    }
    assert forall ch :: ch in chains ==> Has(chains, ch);
    assert IsChain(f', [c]) by { assert Follows(f', [c], 0); }
    forall ch | Has(all, ch) ensures IsChain(f', ch) { assert ch == [c] || Has(chains, ch); }
    forall a: seq<nat>, b: seq<nat> | Has(all, a) && Has(all, b) && a != b ensures Disjoint(a, b) {
      assert a == [c] || Has(chains, a);
      assert b == [c] || Has(chains, b);
    }
    forall x | 2 <= x < |f'| && f'[x] != 0 ensures Covered(all, x) {
      if x == c {
        assert Has(all, [c]);
      } else {
        assert Covered(chains, x);
        var ch :| Has(chains, ch) && x in ch;
        assert Has(all, ch);
      }
    }
  }

  lemma FreeNotInChain(f: seq<nat>, ch: seq<nat>, c: nat)
    requires IsChain(f, ch) && c < |f| && f[c] == 0
    ensures c !in ch
  {
    forall i | 0 <= i < |ch| ensures ch[i] != c {
      assert Follows(f, ch, i);
    }
  }

  /** Linking a fresh single cluster to the end of a chain. */
  lemma ForestAppend(f: seq<nat>, chains: set<seq<nat>>, ch: seq<nat>, c: nat)
    requires Forest(f, chains) && ch in chains && [c] in chains && ch != [c] && 2 <= c < |f|
    requires ch != [] && ch[|ch| - 1] < |f|
    ensures Forest(f[ch[|ch| - 1] := c], chains - {ch} - {[c]} + {ch + [c]})
  {
    var last := ch[|ch| - 1];
    var f', rest := f[last := c], chains - {ch} - {[c]};
    var all, longer := rest + {ch + [c]}, ch + [c];
    assert Has(chains, ch) && Has(chains, [c]);
    assert last in ch;
    AppendedChain(f, ch, c);
    forall a | Has(rest, a) ensures IsChain(f', a) && Disjoint(a, longer) && Disjoint(longer, a) {
      assert Has(chains, a);
      assert Disjoint(a, ch) && Disjoint(a, [c]) && c in [c];
      forall i | 0 <= i < |a| ensures f'[a[i]] == f[a[i]] { assert a[i] in a; }
      ChainKept(f, f', a);
    }
    forall a | Has(all, a) ensures IsChain(f', a) { assert a == longer || Has(rest, a); }
    forall a: seq<nat>, b: seq<nat> | Has(all, a) && Has(all, b) && a != b ensures Disjoint(a, b) {
      assert a == longer || (Has(rest, a) && Has(chains, a));
      assert b == longer || (Has(rest, b) && Has(chains, b));
    }
    forall x | 2 <= x < |f'| && f'[x] != 0 ensures Covered(all, x) {
      AppendCovers(f, chains, ch, c, x);
    }
  }

  lemma AppendedChain(f: seq<nat>, ch: seq<nat>, c: nat)
    requires IsChain(f, ch) && IsChain(f, [c]) && c !in ch
    ensures IsChain(f[ch[|ch| - 1] := c], ch + [c])
  {
    var f', longer := f[ch[|ch| - 1] := c], ch + [c];
    forall i, j | 0 <= i < j < |longer| ensures Differ(longer[i], longer[j]) {
      assert j < |ch| ==> Differ(ch[i], ch[j]);
      assert longer[i] in ch;
    }
    forall i | 0 <= i < |longer| ensures Follows(f', longer, i) {
      if i < |ch| - 1 {
        assert Follows(f, ch, i) && Differ(ch[i], ch[|ch| - 1]);
      } else if i == |ch| {
        assert Follows(f, [c], 0);
      }
    }
  }

  lemma AppendCovers(f: seq<nat>, chains: set<seq<nat>>, ch: seq<nat>, c: nat, x: nat)
    requires Forest(f, chains) && ch in chains && [c] in chains && ch != [] && ch[|ch| - 1] < |f| && 2 <= x < |f|
    requires x == ch[|ch| - 1] || f[x] != 0
    ensures Covered(chains - {ch} - {[c]} + {ch + [c]}, x)
  {
    var all := chains - {ch} - {[c]} + {ch + [c]};
    assert Has(all, ch + [c]);
    if x !in ch + [c] {
      assert Covered(chains, x);
      var a :| Has(chains, a) && x in a;
      assert Has(all, a);
    }
  }

  // ----- freeing -----

  ghost function NonZero(f: seq<nat>): nat {
    if f == [] then 0 else (if f[0] != 0 then 1 else 0) + NonZero(f[1..])
  }

  lemma {:induction false} NonZeroUpdate(f: seq<nat>, c: nat, v: nat)
    requires c < |f|
    ensures NonZero(f[c := v]) == NonZero(f) - (if f[c] != 0 then 1 else 0) + (if v != 0 then 1 else 0)
  {
    if c == 0 {
      assert f[c := v][1..] == f[1..];
    } else {
      assert f[c := v][1..] == f[1..][c - 1 := v];
      NonZeroUpdate(f[1..], c - 1, v);
    }
  }

  lemma {:induction false} NonZeroMost(f: seq<nat>)
    ensures NonZero(f) <= |f| && (NonZero(f) == |f| <==> forall i :: 0 <= i < |f| ==> f[i] != 0)
  {
    if f != [] {
      NonZeroMost(f[1..]);
      assert (forall i :: 0 <= i < |f| ==> f[i] != 0) <==> f[0] != 0 && forall i :: 0 <= i < |f[1..]| ==>
        f[1..][i] != 0 by {
        assert forall i :: 0 <= i < |f[1..]| ==> f[1..][i] == f[i + 1];
        assert forall i :: 0 < i < |f| ==> f[i] == f[1..][i - 1];
      }
    }
  }

  /** How many data clusters are in use; entries 0 and 1 belong to none. */
  ghost function InUse(f: seq<nat>): nat
    requires |f| >= 2
  {
    NonZero(f[2..])
  }

  lemma InUseUpdate(f: seq<nat>, c: nat, v: nat)
    requires 2 <= c < |f|
    ensures InUse(f[c := v]) == InUse(f) - (if f[c] != 0 then 1 else 0) + (if v != 0 then 1 else 0)
  {
    assert f[c := v][2..] == f[2..][c - 2 := v];
    NonZeroUpdate(f[2..], c - 2, v);
  }

  datatype Outcome = Outcome(fat: seq<nat>, ok: bool, steps: nat)

  /** What freeing from cluster `c` does to any table, sound or not, and in how many
      iterations. */
  ghost function FreeFrom(g: Geo, f: seq<nat>, c: nat): (r: Outcome)
    requires |f| == g.clusters + 2 && IsData(g, c)
    ensures |r.fat| == |f|
    ensures r.steps <= InUse(f) + 1
    decreases InUse(f)
  {
    var v := f[c];
    if !IsEntryValue(g, v) then Outcome(f, false, 1)
    else
      InUseUpdate(f, c, 0);
      if v >= END then Outcome(f[c := 0], true, 1)
      else if !IsData(g, v) then Outcome(f[c := 0], false, 1)
      else
        var r := FreeFrom(g, f[c := 0], v);
        r.(steps := r.steps + 1)
  }

  ghost function Cleared(f: seq<nat>, ch: seq<nat>): (r: seq<nat>)
    ensures |r| == |f| && forall c :: 0 <= c < |f| ==> r[c] == if c in ch then 0 else f[c]
  {
    seq(|f|, c requires 0 <= c < |f| => if c in ch then 0 else f[c])
  }

  /** Freeing from the head of a chain clears that chain, and only that. */
  lemma {:induction false} FreeChainFrom(g: Geo, f: seq<nat>, ch: seq<nat>, i: nat)
    requires |f| == g.clusters + 2 && g.clusters + 2 <= END && IsChain(f, ch) && i < |ch|
    requires forall k :: 0 <= k < |f| ==> f[k] < ENTRY_BITS
    ensures IsData(g, ch[i])
    ensures FreeFrom(g, Cleared(f, ch[..i]), ch[i]) == Outcome(Cleared(f, ch), true, |ch| - i)
    decreases |ch| - i
  {
    var fi := Cleared(f, ch[..i]);
    assert Follows(f, ch, i);
    assert ch[i] !in ch[..i] by {
      forall j | 0 <= j < i ensures ch[..i][j] != ch[i] { assert Differ(ch[j], ch[i]); }
    }
    assert ch[..i + 1] == ch[..i] + [ch[i]];
    assert fi[ch[i] := 0] == Cleared(f, ch[..i + 1]);
    if i + 1 < |ch| {
      assert ch[i + 1] >= 2;
      FreeChainFrom(g, f, ch, i + 1);
    } else {
      assert ch[..i + 1] == ch;
    }
  }

  /** Removing one chain from a forest. */
  lemma ForestFree(f: seq<nat>, chains: set<seq<nat>>, ch: seq<nat>)
    requires Forest(f, chains) && ch in chains
    ensures Forest(Cleared(f, ch), chains - {ch})
  {
    var f', rest := Cleared(f, ch), chains - {ch};
    assert Has(chains, ch);
    forall a | Has(rest, a) ensures IsChain(f', a) {
      assert Has(chains, a) && Disjoint(a, ch);
      forall i | 0 <= i < |a| ensures f'[a[i]] == f[a[i]] { assert a[i] in a; }
      ChainKept(f, f', a);
    }
    forall a: seq<nat>, b: seq<nat> | Has(rest, a) && Has(rest, b) && a != b ensures Disjoint(a, b) {
      assert Has(chains, a) && Has(chains, b);
    }
    forall x | 2 <= x < |f'| && f'[x] != 0 ensures Covered(rest, x) {
      assert Covered(chains, x);
      var a :| Has(chains, a) && x in a;
      assert Has(rest, a);
    }
  }

  // ----- the operations -----

  /** The volume's table is a forest of these chains, and its copies agree. */
  ghost predicate Sound(vol: FatVolume, chains: set<seq<nat>>)
    reads vol
  {
    vol.Valid() && Mirrored(vol.geo, vol.disk) && Forest(Fat(vol.geo, vol.disk), chains)
  }

  /** How many clusters are free. */
  ghost function FreeClusters(g: Geo, d: seq<Block>): (n: nat)
    requires Backed(g, d)
    ensures n == 0 <==> forall x :: 2 <= x < g.clusters + 2 ==> Fat(g, d)[x] != 0
  {
    var f := Fat(g, d);
    NonZeroMost(f[2..]);
    assert forall x :: 2 <= x < |f| ==> f[x] == f[2..][x - 2];
    assert forall i :: 0 <= i < |f[2..]| ==> f[2..][i] == f[i + 2];
    g.clusters - InUse(f)
  }

  /** Giving a cluster to somebody, and linking it, takes one. */
  lemma FreeTaken(g: Geo, d: seq<Block>, d': seq<Block>, c: nat, v: nat)
    requires Backed(g, d) && Backed(g, d') && IsData(g, c) && Fat(g, d') == Fat(g, d)[c := v] && v != 0
    ensures FreeClusters(g, d') == FreeClusters(g, d) - if Fat(g, d)[c] == 0 then 1 else 0
  {
    InUseUpdate(Fat(g, d), c, v);
  }

  /** Only sectors of the tables differ. */
  ghost predicate OnlyFats(g: Geo, d: seq<Block>, d': seq<Block>) {
    |d'| == |d| && forall x {:trigger d'[x]} :: 0 <= x < |d| && !InFats(g, x) ==> d'[x] == d[x]
  }

  /** Entries have 28 bits. */
  lemma EntryFits(g: Geo, d: seq<Block>)
    requires Backed(g, d)
    ensures forall c :: 0 <= c < g.clusters + 2 ==> Fat(g, d)[c] < ENTRY_BITS
  {
    forall c | 0 <= c < g.clusters + 2 ensures Fat(g, d)[c] < ENTRY_BITS {
      assert IsEntry(g, d, c, Fat(g, d)[c]);
    }
  }

  lemma OnlyFatsTwice(g: Geo, d0: seq<Block>, d1: seq<Block>, d2: seq<Block>)
    requires OnlyFats(g, d0, d1) && OnlyFats(g, d1, d2)
    ensures OnlyFats(g, d0, d2)
  {}

  /** Reads an entry and clears it, unless it makes no sense. */
  method FreeOne(vol: FatVolume, c: nat) returns (read: bool, next: nat)
    requires vol.Valid() && IsData(vol.geo, c)
    modifies vol
    ensures vol.Valid() && OnlyFats(vol.geo, old(vol.disk), vol.disk)
    ensures Mirrored(vol.geo, old(vol.disk)) ==> Mirrored(vol.geo, vol.disk)
    ensures next == Fat(vol.geo, old(vol.disk))[c] && (read <==> IsEntryValue(vol.geo, next))
    ensures Fat(vol.geo, vol.disk) == if read then Fat(vol.geo, old(vol.disk))[c := 0] else Fat(vol.geo, old(vol.disk))
    ensures read && next != 0 ==> InUse(Fat(vol.geo, vol.disk)) < InUse(Fat(vol.geo, old(vol.disk)))
  {
    read, next := vol.NextCluster(c);
    if read {
      InUseUpdate(Fat(vol.geo, vol.disk), c, 0);
      var written := vol.WriteFatEntry(c, 0);
    }
  }

  /** Frees the chain from a cluster on.  Whatever the table holds, it stops after
      at most one iteration more than there are entries in use. */
  method FreeClusterChain(vol: FatVolume, first: nat) returns (ok: bool, ghost steps: nat)
    requires vol.Valid()
    modifies vol
    ensures vol.Valid() && |vol.disk| == |old(vol.disk)|
    ensures Mirrored(vol.geo, old(vol.disk)) ==> Mirrored(vol.geo, vol.disk)
    ensures IsData(vol.geo, first) ==>
      Outcome(Fat(vol.geo, vol.disk), ok, steps) == FreeFrom(vol.geo, Fat(vol.geo, old(vol.disk)), first)
    ensures steps <= InUse(Fat(vol.geo, old(vol.disk))) + 1
    ensures !IsData(vol.geo, first) ==> !ok && vol.disk == old(vol.disk)
    ensures OnlyFats(vol.geo, old(vol.disk), vol.disk)
  {
    var c: nat := first;
    steps := 0;
    if !IsData(vol.geo, c) {
      return false, 0;
    }
    ghost var f0 := Fat(vol.geo, vol.disk);
    while true
      invariant vol.Valid() && |vol.disk| == |old(vol.disk)|
      invariant Mirrored(vol.geo, old(vol.disk)) ==> Mirrored(vol.geo, vol.disk)
      invariant IsData(vol.geo, c)
      invariant var r := FreeFrom(vol.geo, Fat(vol.geo, vol.disk), c);
                r.(steps := steps + r.steps) == FreeFrom(vol.geo, f0, first)
      invariant OnlyFats(vol.geo, old(vol.disk), vol.disk)
      decreases InUse(Fat(vol.geo, vol.disk))
    {
      ghost var d := vol.disk;
      var read, next := FreeOne(vol, c);
      if !read {
        return false, steps + 1;
      }
      OnlyFatsTwice(vol.geo, old(vol.disk), d, vol.disk);
      if next >= END {
        return true, steps + 1;
      }
      if !IsData(vol.geo, next) {
        return false, steps + 1;
      }
      steps := steps + 1;
      c := next;
    }
  }

  /** Freeing a chain of a sound volume. */
  method FreeChain(vol: FatVolume, ghost chains: set<seq<nat>>, ghost ch: seq<nat>, first: nat) returns (ok: bool)
    requires Sound(vol, chains) && ch in chains && ch != [] && first == ch[0]
    modifies vol
    ensures ok && Sound(vol, chains - {ch})
    ensures Fat(vol.geo, vol.disk) == Cleared(Fat(vol.geo, old(vol.disk)), ch)
    ensures |vol.disk| == |old(vol.disk)|
    ensures OnlyFats(vol.geo, old(vol.disk), vol.disk)
    ensures FreeClusters(vol.geo, vol.disk) == FreeClusters(vol.geo, old(vol.disk)) + |ch|
  {
    ghost var f := Fat(vol.geo, vol.disk);
    assert Has(chains, ch);
    ClearedCount(f, ch, |ch|);
    assert ch[..|ch|] == ch;
    EntryFits(vol.geo, vol.disk);
    FreeChainFrom(vol.geo, f, ch, 0);
    assert Cleared(f, ch[..0]) == f;
    ForestFree(f, chains, ch);
    var freed, _ := FreeClusterChain(vol, first);
    return freed;
  }

  /** Appends a fresh cluster after the last cluster of a chain, or changes nothing. */
  method AppendFileCluster(vol: FatVolume, tail: nat, ghost chains: set<seq<nat>>, ghost ch: seq<nat>)
    returns (ok: bool, c: nat)
    requires Sound(vol, chains) && ch in chains && ch != [] && tail == ch[|ch| - 1]
    modifies vol
    ensures |vol.disk| == |old(vol.disk)|
    ensures ok <==> FreeClusters(vol.geo, old(vol.disk)) > 0
    ensures ok ==> FreeClusters(vol.geo, vol.disk) + 1 == FreeClusters(vol.geo, old(vol.disk))
    ensures !ok ==> vol.disk == old(vol.disk) && Sound(vol, chains)
    ensures ok ==> Sound(vol, chains - {ch} + {ch + [c]}) && Allocated(vol.geo, old(vol.disk), vol.disk, c)
    ensures ok ==> FirstFree(vol.geo, Fat(vol.geo, old(vol.disk)), c) && (forall a :: a in chains ==> c !in a)
  {
    ghost var f := Fat(vol.geo, vol.disk);
    assert Has(chains, ch);
    ok, c := vol.AllocCluster();
    if !ok {
      FullForest(vol.geo, vol.disk, chains);
      return false, 0;
    }
    ForestAlloc(f, chains, c);
    FreeTaken(vol.geo, old(vol.disk), vol.disk, c, END);
    ghost var f1, d1 := Fat(vol.geo, vol.disk), vol.disk;
    assert tail in ch && Follows(f, ch, |ch| - 1);
    var written := vol.WriteFatEntry(tail, c);
    FreeTaken(vol.geo, d1, vol.disk, tail, c);
    ForestAppend(f1, chains + {[c]}, ch, c);
    assert chains + {[c]} - {ch} - {[c]} + {ch + [c]} == chains - {ch} + {ch + [c]};
    AllocatedKept(vol.geo, old(vol.disk), d1, vol.disk, c, tail);
  }

  lemma AllocatedKept(g: Geo, d0: seq<Block>, d1: seq<Block>, d2: seq<Block>, c: nat, tail: nat)
    requires Allocated(g, d0, d1, c) && EntryWritten(g, d1, d2, tail, c, g.tables)
    ensures Allocated(g, d0, d2, c)
  {}

  /** In a forest every entry makes sense, so allocation fails only when no cluster
      is free. */
  lemma FullForest(g: Geo, d: seq<Block>, chains: set<seq<nat>>)
    requires Backed(g, d) && Forest(Fat(g, d), chains) && NoneFree(g, Fat(g, d))
    ensures FreeClusters(g, d) == 0
  {
    var f := Fat(g, d);
    var n: nat :| FullUpTo(g, f, n);
    if n < |f| {
      EntryFits(g, d);
      assert Covered(chains, n);
      var ch :| Has(chains, ch) && n in ch;
      var i :| 0 <= i < |ch| && ch[i] == n;
      assert Follows(f, ch, i);
      assert i + 1 < |ch| ==> IsData(g, ch[i + 1]);
    }
  }

  /** Walks to the end of a directory's chain and appends a cluster there. */
  method AppendDirectoryCluster(vol: FatVolume, first: nat, ghost chains: set<seq<nat>>, ghost ch: seq<nat>)
    returns (ok: bool, ghost c: nat)
    requires Sound(vol, chains) && ch in chains && ch != [] && first == ch[0]
    modifies vol
    ensures |vol.disk| == |old(vol.disk)|
    ensures ok <==> FreeClusters(vol.geo, old(vol.disk)) > 0
    ensures ok ==> FreeClusters(vol.geo, vol.disk) + 1 == FreeClusters(vol.geo, old(vol.disk))
    ensures !ok ==> vol.disk == old(vol.disk) && Sound(vol, chains)
    ensures ok ==> Sound(vol, chains - {ch} + {ch + [c]}) && Allocated(vol.geo, old(vol.disk), vol.disk, c)
    ensures ok ==> forall a :: a in chains ==> c !in a
  {
    assert Has(chains, ch);
    EntryFits(vol.geo, vol.disk);
    var cluster := first;
    ghost var i := 0;
    while true
      invariant vol.Valid() && vol.disk == old(vol.disk) && i < |ch| && cluster == ch[i]
      decreases |ch| - i
    {
      assert Follows(Fat(vol.geo, vol.disk), ch, i);
      assert i + 1 < |ch| ==> IsData(vol.geo, ch[i + 1]);
      var read, next := vol.NextCluster(cluster);
      if next >= END {
        break;
      }
      cluster, i := next, i + 1;
    }
    var appended, new_ := AppendFileCluster(vol, cluster, chains, ch);
    return appended, new_;
  }

  // ----- counting -----

  /** The number of clusters in a set of chains, were they all different. */
  ghost function TotalLength(chains: set<seq<nat>>): nat {
    if chains == {} then 0 else var a :| a in chains; |a| + TotalLength(chains - {a})
  }

  lemma {:induction false} TotalWithout(chains: set<seq<nat>>, a: seq<nat>)
    requires a in chains
    ensures TotalLength(chains) == |a| + TotalLength(chains - {a})
    decreases |chains|
  {
    var b :| b in chains && TotalLength(chains) == |b| + TotalLength(chains - {b});
    if a != b {
      TotalWithout(chains - {b}, a);
      TotalWithout(chains - {a}, b);
      assert chains - {b} - {a} == chains - {a} - {b};
    }
  }

  /** Clearing a chain gives back as many clusters as it has. */
  lemma {:induction false} ClearedCount(f: seq<nat>, ch: seq<nat>, n: nat)
    requires IsChain(f, ch) && n <= |ch| && |f| >= 2
    ensures InUse(Cleared(f, ch[..n])) + n == InUse(f)
  {
    if n == 0 {
      assert Cleared(f, ch[..0]) == f;
    } else {
      ClearedCount(f, ch, n - 1);
      var before, c := Cleared(f, ch[..n - 1]), ch[n - 1];
      assert Follows(f, ch, n - 1);
      assert c !in ch[..n - 1] by {
        forall i | 0 <= i < n - 1 ensures ch[i] != c { assert Differ(ch[i], ch[n - 1]); }
      }
      assert ch[..n] == ch[..n - 1] + [c];
      assert Cleared(f, ch[..n]) == before[c := 0];
      InUseUpdate(before, c, 0);
    }
  }

  /** Every cluster in use is in exactly one place of one chain. */
  lemma {:induction false} ForestCounts(f: seq<nat>, chains: set<seq<nat>>)
    requires Forest(f, chains) && |f| >= 2
    ensures InUse(f) == TotalLength(chains)
    decreases |chains|
  {
    if chains == {} {
      forall x | 2 <= x < |f| ensures f[x] == 0 {
        assert f[x] != 0 ==> Covered(chains, x);
      }
      AllZero(f[2..]);
    } else {
      var a :| a in chains;
      assert Has(chains, a);
      ForestFree(f, chains, a);
      ClearedCount(f, a, |a|);
      assert a[..|a|] == a;
      ForestCounts(Cleared(f, a), chains - {a});
      TotalWithout(chains, a);
    }
  }

  lemma {:induction false} AllZero(f: seq<nat>)
    requires forall i :: 0 <= i < |f| ==> f[i] == 0
    ensures NonZero(f) == 0
  {
    if f != [] {
      AllZero(f[1..]);
    }
  }
}
