/** The directory tree of an NXFS volume and the abstract file system it
    represents. */
module NxfsTree {
  import opened Bitmap
  import opened Extents
  import opened Contents
  import opened NxfsAlloc
  import opened NxfsDir
  import opened NxfsState

  type View = seq<seq<DirSlot>>

  ghost function Entries(disk: seq<Block>, i: Inode): seq<DirSlot> {
    if i.kind.Dir? && Within(Blocks(i), 0, |disk|) then Slots(disk, Blocks(i)) else []
  }

  /** The slots of every directory, by inode number. */
  ghost function ViewOf(disk: seq<Block>, inodes: seq<Inode>): (v: View)
    ensures |v| == |inodes|
    ensures forall i {:trigger v[i]} :: 0 <= i < |inodes| ==> v[i] == Entries(disk, inodes[i])
  {
    seq(|inodes|, i requires 0 <= i < |inodes| => Entries(disk, inodes[i]))
  }

  /** Each entry other than "." and ".." names an inode in use, not the root and
      not the directory itself. */
  ghost predicate LinksValid(v: View, inodes: seq<Inode>) {
    forall i, k {:trigger Link(v[i][k])} :: 0 <= i < |v| && 0 <= k < |v[i]| && Link(v[i][k]) ==>
      0 < v[i][k].ino < |inodes| && inodes[v[i][k].ino].used && v[i][k].ino != i
  }

  /** No inode is named by two such entries. */
  ghost predicate LinksUnique(v: View) {
    forall i, k, j, m {:trigger Link(v[i][k]), Link(v[j][m])} ::
      (&& 0 <= i < |v| && 0 <= k < |v[i]| && 0 <= j < |v| && 0 <= m < |v[j]|
       && Link(v[i][k]) && Link(v[j][m]) && v[i][k].ino == v[j][m].ino) ==> i == j && k == m
  }

  ghost predicate NamesUnique(v: View) {
    forall i :: 0 <= i < |v| ==> UniqueNames(v[i])
  }

  /** Every inode in use, except the root and `c`, is named by such an entry. */
  ghost predicate LinksComplete(v: View, inodes: seq<Inode>, c: nat) {
    forall x {:trigger Linked(v, x)} :: 0 < x < |inodes| && x != c && inodes[x].used ==> Linked(v, x)
  }

  ghost predicate Linked(v: View, c: nat) {
    exists i, k {:trigger Link(v[i][k])} :: 0 <= i < |v| && 0 <= k < |v[i]| && Link(v[i][k]) && v[i][k].ino == c
  }

  ghost predicate Tree(v: View, inodes: seq<Inode>) {
    && |v| == |inodes| && 0 < |inodes| && inodes[0].kind.Dir? && inodes[0].used
    && NamesUnique(v) && LinksValid(v, inodes) && LinksUnique(v)
  }

  ghost predicate Unlinked(v: View, c: nat) {
    forall i, k {:trigger Link(v[i][k])} :: 0 <= i < |v| && 0 <= k < |v[i]| && Link(v[i][k]) ==> v[i][k].ino != c
  }

  lemma TreeGrow(v: View, inodes: seq<Inode>, p: nat, n: nat)
    requires Tree(v, inodes) && p < |v|
    ensures Tree(v[p := v[p] + FreeSlots(n)], inodes)
    ensures forall c: nat :: Unlinked(v, c) ==> Unlinked(v[p := v[p] + FreeSlots(n)], c)
  {
    NameMapGrow(v[p], n);
    var w := v[p := v[p] + FreeSlots(n)];
    assert forall i, k :: 0 <= i < |w| && 0 <= k < |w[i]| && Link(w[i][k]) ==> k < |v[i]| && v[i][k] == w[i][k];
  }

  lemma TreeAdd(v: View, inodes: seq<Inode>, p: nat, k: nat, s: DirSlot)
    requires Tree(v, inodes) && p < |v| && k < |v[p]| && !Live(v[p][k])
    requires Live(s) && s.name !in NameMap(v[p])
    requires Link(s) ==> 0 < s.ino < |inodes| && inodes[s.ino].used && s.ino != p && Unlinked(v, s.ino)
    ensures Tree(v[p := v[p][k := s]], inodes)
  {
    NameMapAdd(v[p], k, s);
    LinksUniqueAdd(v, p, k, s);
    LinksValidAdd(v, inodes, p, k, s);
  }

  lemma LinksValidAdd(v: View, inodes: seq<Inode>, p: nat, k: nat, s: DirSlot)
    requires LinksValid(v, inodes) && p < |v| && k < |v[p]|
    requires Link(s) ==> 0 < s.ino < |inodes| && inodes[s.ino].used && s.ino != p
    ensures LinksValid(v[p := v[p][k := s]], inodes)
    ensures forall c: nat :: Unlinked(v, c) && (Link(s) ==> c != s.ino) ==> Unlinked(v[p := v[p][k := s]], c)
  {
    var w := v[p := v[p][k := s]];
    assert forall i, m :: 0 <= i < |w| && 0 <= m < |w[i]| && Link(w[i][m]) ==>
      (i == p && m == k && w[i][m] == s) || w[i][m] == v[i][m];
  }

  lemma LinksUniqueAdd(v: View, p: nat, k: nat, s: DirSlot)
    requires LinksUnique(v) && p < |v| && k < |v[p]| && (Link(s) ==> Unlinked(v, s.ino))
    ensures LinksUnique(v[p := v[p][k := s]])
  {
    var w := v[p := v[p][k := s]];
    assert forall i, m :: 0 <= i < |w| && 0 <= m < |w[i]| && Link(w[i][m]) && !(i == p && m == k) ==>
      w[i][m] == v[i][m];
  }

  lemma TreeRemove(v: View, inodes: seq<Inode>, p: nat, k: nat)
    requires Tree(v, inodes) && p < |v| && k < |v[p]| && Link(v[p][k])
    ensures Tree(v[p := v[p][k := FREE_SLOT]], inodes)
    ensures Unlinked(v[p := v[p][k := FREE_SLOT]], v[p][k].ino)
  {
    NameMapRemove(v[p], k);
    var w := v[p := v[p][k := FREE_SLOT]];
    assert forall i, m :: 0 <= i < |w| && 0 <= m < |w[i]| && Link(w[i][m]) ==>
      !(i == p && m == k) && w[i][m] == v[i][m];
  }

  /** An inode nobody links to, holding no links, can be freed. */
  lemma TreeFree(v: View, inodes: seq<Inode>, c: nat, inode: Inode)
    requires Tree(v, inodes) && 0 < c < |v| && Unlinked(v, c)
    ensures Tree(v[c := []], inodes[c := inode])
  {
    var w := v[c := []];
    assert forall i, m :: 0 <= i < |w| && 0 <= m < |w[i]| && Link(w[i][m]) ==> w[i][m] == v[i][m];
  }

  /** A fresh inode, or new field values of one in use. */
  lemma TreeInode(v: View, inodes: seq<Inode>, c: nat, inode: Inode, slots: seq<DirSlot>)
    requires Tree(v, inodes) && c < |v| && inode.used && (c == 0 ==> inode.kind.Dir?)
    requires slots == v[c] || forall k :: 0 <= k < |slots| ==> slots[k] == FREE_SLOT
    ensures Tree(v[c := slots], inodes[c := inode])
    ensures forall x: nat :: Unlinked(v, x) ==> Unlinked(v[c := slots], x)
  {
    var w := v[c := slots];
    assert forall i, m :: 0 <= i < |w| && 0 <= m < |w[i]| && Link(w[i][m]) ==> m < |v[i]| && w[i][m] == v[i][m];
  }

  /** An inode not in use is linked from nowhere. */
  lemma FreeIsUnlinked(v: View, inodes: seq<Inode>, c: nat)
    requires Tree(v, inodes) && c < |inodes| && !inodes[c].used
    ensures Unlinked(v, c) && c != 0
  {}

  /** Slots only gained entries: every link of `v` is still there in `w`. */
  lemma LinkedKept(v: View, w: View, x: nat)
    requires Linked(v, x) && |w| == |v|
    requires forall i, k {:trigger Link(v[i][k])} ::
      0 <= i < |v| && 0 <= k < |v[i]| && Link(v[i][k]) && v[i][k].ino == x ==> k < |w[i]| && w[i][k] == v[i][k]
    ensures Linked(w, x)
  {
    var i, k :| 0 <= i < |v| && 0 <= k < |v[i]| && Link(v[i][k]) && v[i][k].ino == x;
    assert Link(w[i][k]);
  }

  // ----- the abstract file system -----

  /** A file is a byte sequence; `tight` says its blocks are exactly the ones the
      bytes need.  A directory is a map from names to inode numbers. */
  datatype Node = FileNode(data: seq<Byte>, tight: bool) | DirNode(entries: map<Name, nat>)

  type Abs = map<nat, Node>

  ghost function NodeOf(disk: seq<Block>, i: Inode): Node {
    if i.kind.Dir? then DirNode(NameMap(Entries(disk, i)))
    else FileNode(Content(disk, Blocks(i), i.size), Tight(disk, Blocks(i), i.size))
  }

  ghost predicate Has(a: Abs, i: int) { i in a }

  ghost predicate IsAbs(disk: seq<Block>, inodes: seq<Inode>, a: Abs) {
    forall i {:trigger Has(a, i)} ::
      && (Has(a, i) <==> 0 <= i < |inodes| && inodes[i].used)
      && (Has(a, i) ==> a[i] == NodeOf(disk, inodes[i]))
  }

  /** The abstract file system a volume represents: the inodes in use, each a
      byte sequence or a map from names to inodes. */
  ghost function AbsOf(disk: seq<Block>, inodes: seq<Inode>): (a: Abs)
    ensures IsAbs(disk, inodes, a)
  {
    assert IsAbs(disk, inodes, map i | 0 <= i < |inodes| && inodes[i].used :: NodeOf(disk, inodes[i]));
    var a :| IsAbs(disk, inodes, a);
    a
  }

  lemma AbstractAt(disk: seq<Block>, inodes: seq<Inode>, i: int)
    ensures i in AbsOf(disk, inodes) <==> 0 <= i < |inodes| && inodes[i].used
    ensures i in AbsOf(disk, inodes) ==> AbsOf(disk, inodes)[i] == NodeOf(disk, inodes[i])
  {
    assert Has(AbsOf(disk, inodes), i) == (i in AbsOf(disk, inodes));
  }

  lemma AbsIs(disk: seq<Block>, inodes: seq<Inode>, a: Abs)
    requires IsAbs(disk, inodes, a)
    ensures AbsOf(disk, inodes) == a
  {
    var b := AbsOf(disk, inodes);
    forall i | Has(a, i) || Has(b, i)
      ensures i in a && i in b && a[i] == b[i]
    {
      assert Has(a, i) && Has(b, i);
    }
    assert forall i :: i in a ==> Has(a, i);
    assert forall i :: i in b ==> Has(b, i);
  }

  lemma NodeKept(d: seq<Block>, d': seq<Block>, i: Inode)
    requires Within(Blocks(i), 0, |d|) && SameOn(d, d', Blocks(i))
    ensures Entries(d', i) == Entries(d, i)
    ensures NodeOf(d', i) == NodeOf(d, i)
  {
    SlotsKept(d, d', Blocks(i));
    ContentKept(d, d', Blocks(i), i.size);
    TightKept(d, d', Blocks(i), i.size);
  }

  /** A step that changes one inode and disturbs no other changes one node. */
  lemma AbsStep(d: seq<Block>, d': seq<Block>, inodes: seq<Inode>, p: nat, inode: Inode)
    requires p < |inodes|
    requires OthersSame(d, d', inodes, p)
    ensures AbsOf(d', inodes[p := inode]) ==
            if inode.used then AbsOf(d, inodes)[p := NodeOf(d', inode)] else AbsOf(d, inodes) - {p}
    ensures ViewOf(d', inodes[p := inode]) == ViewOf(d, inodes)[p := Entries(d', inode)]
  {
    forall i | 0 <= i < |inodes| && i != p
      ensures NodeOf(d', inodes[i]) == NodeOf(d, inodes[i]) && Entries(d', inodes[i]) == Entries(d, inodes[i])
    {
      NodeKept(d, d', inodes[i]);
    }
    var a := AbsOf(d, inodes);
    var a' := if inode.used then a[p := NodeOf(d', inode)] else a - {p};
    assert forall i {:trigger Has(a', i)} :: i != p ==> Has(a', i) == Has(a, i);
    AbsIs(d', inodes[p := inode], a');
  }

  lemma AbsKept(d: seq<Block>, d': seq<Block>, inodes: seq<Inode>)
    requires Undisturbed(d, d', inodes)
    ensures AbsOf(d', inodes) == AbsOf(d, inodes) && ViewOf(d', inodes) == ViewOf(d, inodes)
  {
    forall i | 0 <= i < |inodes|
      ensures NodeOf(d', inodes[i]) == NodeOf(d, inodes[i]) && Entries(d', inodes[i]) == Entries(d, inodes[i])
    {
      NodeKept(d, d', inodes[i]);
    }
    AbsIs(d', inodes, AbsOf(d, inodes));
  }

  /** One step of a walk. */
  ghost function Child(a: Abs, cur: nat, name: Name): int {
    if |name| <= 27 && cur in a && a[cur].DirNode? && name in a[cur].entries && a[cur].entries[name] in a
    then a[cur].entries[name] else -1
  }

  /** Follows a path of names from a directory; -1 when it leads nowhere.  Names
      of more than 27 bytes never lead anywhere. */
  ghost function Walk(a: Abs, cur: nat, path: seq<Name>): int
    decreases |path|
  {
    if path == [] then cur
    else if Child(a, cur, path[0]) < 0 then -1
    else Walk(a, Child(a, cur, path[0]), path[1..])
  }

  lemma {:induction false} WalkSnoc(a: Abs, cur: nat, path: seq<Name>, n: Name)
    requires cur in a
    ensures Walk(a, cur, path + [n]) == if Walk(a, cur, path) < 0 then -1 else Child(a, Walk(a, cur, path), n)
    ensures Walk(a, cur, path) >= 0 ==> Walk(a, cur, path) in a
    decreases |path|
  {
    if path == [] {
      assert ([n])[1..] == [];
    } else {
      assert (path + [n])[1..] == path[1..] + [n];
      if Child(a, cur, path[0]) >= 0 {
        WalkSnoc(a, Child(a, cur, path[0]), path[1..], n);
      }
    }
  }
}
