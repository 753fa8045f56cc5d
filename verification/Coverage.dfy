/** What growing a file can hope for: how many blocks a limited number of free runs
    can supply.  Taking the longest run first is never a mistake. */
module Coverage {
  import opened Bitmap
  import opened Extents
  import opened NxfsAlloc

  ghost predicate InExtent(e: Extent, b: nat) { e.start <= b < e.start + e.len }

  ghost predicate InSome(runs: seq<Extent>, b: nat) {
    exists i {:trigger runs[i]} :: 0 <= i < |runs| && InExtent(runs[i], b)
  }

  /** The blocks below `n` that lie in one of the runs. */
  ghost function Covered(runs: seq<Extent>, n: nat): set<nat> {
    set b: nat | b < n && InSome(runs, b)
  }

  /** The blocks of one run. */
  ghost function RunSet(start: nat, len: nat): set<nat> {
    set b | b in Run(start, len)
  }

  /** Every run consists of free blocks from `lo` on. */
  ghost predicate FreeRuns(bits: seq<bool>, lo: nat, runs: seq<Extent>) {
    forall i {:trigger runs[i]} :: 0 <= i < |runs| ==> lo <= runs[i].start && FreeRun(bits, runs[i].start, runs[i].len)
  }

  /** Together with the blocks `extra`, at most `slots` free runs hold `need` blocks. */
  ghost predicate Coverable(bits: seq<bool>, lo: nat, extra: set<nat>, need: int, slots: nat) {
    exists runs {:trigger FreeRuns(bits, lo, runs)} ::
      |runs| <= slots && FreeRuns(bits, lo, runs) && |Covered(runs, |bits|) + extra| >= need
  }

  // ----- counting -----

  lemma {:induction false} SubsetSize<T>(a: set<T>, b: set<T>)
    requires a <= b
    ensures |a| <= |b|
  {
    if a != {} {
      var x :| x in a;
      SubsetSize(a - {x}, b - {x});
    }
  }

  lemma {:induction false} RunSize(start: nat, len: nat)
    ensures |RunSet(start, len)| == len
  {
    if len > 0 {
      RunSize(start, len - 1);
      InRunSet(start, len);
      InRunSet(start, len - 1);
      assert RunSet(start, len) == RunSet(start, len - 1) + {start + len - 1};
    }
  }

  lemma InRunSet(start: nat, len: nat)
    ensures forall b: nat :: b in RunSet(start, len) <==> start <= b < start + len
  {
    forall b: nat ensures b in RunSet(start, len) <==> start <= b < start + len {
      InRun(start, len, b);
    }
  }

  /** What `rest` misses of `all` is at most one run. */
  lemma CoverLoss(all: set<nat>, rest: set<nat>, start: nat, len: nat)
    requires forall b :: b in all ==> b in rest || start <= b < start + len
    ensures |all| <= |rest| + len
  {
    InRunSet(start, len);
    RunSize(start, len);
    SubsetSize(all, rest + RunSet(start, len));
  }

  // ----- leaving a run out -----

  ghost predicate Meets(e: Extent, start: nat, len: nat) {
    exists b: nat {:trigger InExtent(e, b)} :: InExtent(e, b) && start <= b < start + len
  }

  /** A free run bounded on both sides by blocks that are not free. */
  ghost predicate Maximal(bits: seq<bool>, lo: nat, start: nat, len: nat) {
    && lo <= start && FreeRun(bits, start, len)
    && (start == lo || bits[start - 1]) && (start + len == |bits| || bits[start + len])
  }

  /** A free run that meets a maximal one lies inside it. */
  lemma MeetsInside(bits: seq<bool>, lo: nat, start: nat, len: nat, e: Extent)
    requires Maximal(bits, lo, start, len) && lo <= e.start && FreeRun(bits, e.start, e.len) && Meets(e, start, len)
    ensures start <= e.start && e.start + e.len <= start + len
  {
    var b: nat :| InExtent(e, b) && start <= b < start + len;
  }

  /** The runs, with those that meet [start, start + len) made empty. */
  ghost function Apart(runs: seq<Extent>, start: nat, len: nat): (r: seq<Extent>)
    ensures |r| == |runs|
    ensures forall i {:trigger r[i]} :: 0 <= i < |r| ==>
      r[i] == if Meets(runs[i], start, len) then Extent(runs[i].start, 0) else runs[i]
  {
    seq(|runs|, i requires 0 <= i < |runs| => if Meets(runs[i], start, len) then Extent(runs[i].start, 0) else runs[i])
  }

  lemma ApartFree(bits: seq<bool>, lo: nat, runs: seq<Extent>, start: nat, len: nat)
    requires FreeRuns(bits, lo, runs)
    ensures FreeRuns(Marked(bits, start, len, true), lo, Apart(runs, start, len))
  {
    var rest, after := Apart(runs, start, len), Marked(bits, start, len, true);
    forall i | 0 <= i < |rest| ensures lo <= rest[i].start && FreeRun(after, rest[i].start, rest[i].len) {
      assert rest[i].start == runs[i].start;
      forall b | rest[i].start <= b < rest[i].start + rest[i].len ensures !after[b] {
        assert InExtent(runs[i], b);
      }
    }
  }

  /** What they still cover, apart from the run itself. */
  lemma ApartCovers(bits: seq<bool>, lo: nat, runs: seq<Extent>, start: nat, len: nat, b: nat)
    requires FreeRuns(bits, lo, runs) && Maximal(bits, lo, start, len) && b in Covered(runs, |bits|)
    ensures b in Covered(Apart(runs, start, len), |bits|) || start <= b < start + len
  {
    var i :| 0 <= i < |runs| && InExtent(runs[i], b);
    var rest := Apart(runs, start, len);
    if Meets(runs[i], start, len) {
      MeetsInside(bits, lo, start, len, runs[i]);
    } else {
      assert InExtent(rest[i], b);
    }
  }

  lemma FreeInBoth(bits: seq<bool>, lo: nat, runs: seq<Extent>, start: nat, len: nat)
    requires FreeRuns(Marked(bits, start, len, true), lo, runs)
    ensures FreeRuns(bits, lo, runs)
    ensures forall b :: b in Covered(runs, |bits|) ==> !(start <= b < start + len)
  {
    var after := Marked(bits, start, len, true);
    forall i | 0 <= i < |runs| ensures lo <= runs[i].start && FreeRun(bits, runs[i].start, runs[i].len) {
      assert FreeRun(after, runs[i].start, runs[i].len);
      assert forall b :: runs[i].start <= b < runs[i].start + runs[i].len ==> !after[b];
    }
    forall b | b in Covered(runs, |bits|) ensures !(start <= b < start + len) {
      var i :| 0 <= i < |runs| && InExtent(runs[i], b);
      assert !after[b];
    }
  }

  // ----- the steps of growing -----

  /** Using up a maximal run that costs no slot. */
  lemma CoverTail(bits: seq<bool>, lo: nat, start: nat, len: nat, need: int, slots: nat)
    requires Maximal(bits, lo, start, len)
    ensures Coverable(bits, lo, RunSet(start, len), need, slots) <==>
            Coverable(Marked(bits, start, len, true), lo, {}, need - len, slots)
  {
    var after, n := Marked(bits, start, len, true), |bits|;
    InRunSet(start, len);
    RunSize(start, len);
    if Coverable(bits, lo, RunSet(start, len), need, slots) {
      var runs :| |runs| <= slots && FreeRuns(bits, lo, runs) && |Covered(runs, n) + RunSet(start, len)| >= need;
      var rest := Apart(runs, start, len);
      ApartFree(bits, lo, runs, start, len);
      forall b | b in Covered(runs, n) + RunSet(start, len) ensures b in Covered(rest, n) || start <= b < start + len {
        if b in Covered(runs, n) {
          ApartCovers(bits, lo, runs, start, len, b);
        }
      }
      CoverLoss(Covered(runs, n) + RunSet(start, len), Covered(rest, n), start, len);
      assert Covered(rest, n) + {} == Covered(rest, n);
      assert FreeRuns(after, lo, rest);
    }
    if Coverable(after, lo, {}, need - len, slots) {
      var runs :| |runs| <= slots && FreeRuns(after, lo, runs) && |Covered(runs, n) + {}| >= need - len;
      FreeInBoth(bits, lo, runs, start, len);
      assert Covered(runs, n) + {} == Covered(runs, n);
      assert Covered(runs, n) * RunSet(start, len) == {};
      assert FreeRuns(bits, lo, runs);
    }
  }

  /** Dropping a run that meets the one taken. */
  lemma DropMet(bits: seq<bool>, lo: nat, start: nat, len: nat, runs: seq<Extent>, i: nat) returns (rest: seq<Extent>)
    requires Maximal(bits, lo, start, len) && FreeRuns(bits, lo, runs) && i < |runs| && Meets(runs[i], start, len)
    ensures |rest| == |runs| - 1 && FreeRuns(Marked(bits, start, len, true), lo, rest)
    ensures |Covered(runs, |bits|)| <= |Covered(rest, |bits|)| + len
  {
    var n, apart := |bits|, Apart(runs, start, len);
    ApartFree(bits, lo, runs, start, len);
    rest := apart[..i] + apart[i + 1..];
    forall b | b in Covered(runs, n) ensures b in Covered(rest, n) || start <= b < start + len {
      ApartCovers(bits, lo, runs, start, len, b);
      if b in Covered(apart, n) {
        var j :| 0 <= j < |apart| && InExtent(apart[j], b);
        assert rest[if j < i then j else j - 1] == apart[j];
      }
    }
    CoverLoss(Covered(runs, n), Covered(rest, n), start, len);
  }

  /** Dropping any run, when none meets the one taken: it is no longer than that. */
  lemma DropAny(bits: seq<bool>, lo: nat, start: nat, len: nat, runs: seq<Extent>) returns (rest: seq<Extent>)
    requires NoFit(bits, len + 1, lo, |bits|) && FreeRuns(bits, lo, runs) && runs != []
    requires forall i {:trigger runs[i]} :: 0 <= i < |runs| ==> !Meets(runs[i], start, len)
    ensures |rest| == |runs| - 1 && FreeRuns(Marked(bits, start, len, true), lo, rest)
    ensures |Covered(runs, |bits|)| <= |Covered(rest, |bits|)| + len
  {
    var n, apart, first := |bits|, Apart(runs, start, len), runs[0];
    ApartFree(bits, lo, runs, start, len);
    rest := apart[1..];
    NoLonger(bits, lo, len, first);
    forall b | b in Covered(runs, n) ensures b in Covered(rest, n) || first.start <= b < first.start + first.len {
      var j :| 0 <= j < |runs| && InExtent(runs[j], b);
      if j > 0 {
        assert rest[j - 1] == apart[j] == runs[j];
      }
    }
    CoverLoss(Covered(runs, n), Covered(rest, n), first.start, first.len);
  }

  lemma NoLonger(bits: seq<bool>, lo: nat, len: nat, e: Extent)
    requires NoFit(bits, len + 1, lo, |bits|) && lo <= e.start && FreeRun(bits, e.start, e.len)
    ensures e.len <= len
  {
    assert e.start + (len + 1) <= |bits| ==> !FreeRun(bits, e.start, len + 1);
  }

  /** The longest free run, taken whole, is never a mistake. */
  lemma CoverLongest(bits: seq<bool>, lo: nat, start: nat, len: nat, need: int, slots: nat)
    requires lo <= start && FreeRun(bits, start, len) && NoFit(bits, len + 1, lo, |bits|) && need > 0
    ensures Maximal(bits, lo, start, len)
    ensures Coverable(bits, lo, {}, need, slots) <==>
            slots > 0 && Coverable(Marked(bits, start, len, true), lo, {}, need - len, slots - 1)
  {
    LongestIsMaximal(bits, lo, start, len);
    if Coverable(bits, lo, {}, need, slots) {
      CoverWithout(bits, lo, start, len, need, slots);
    }
    if slots > 0 && Coverable(Marked(bits, start, len, true), lo, {}, need - len, slots - 1) {
      CoverWith(bits, lo, start, len, need, slots);
    }
  }

  lemma CoverWithout(bits: seq<bool>, lo: nat, start: nat, len: nat, need: int, slots: nat)
    requires Maximal(bits, lo, start, len) && NoFit(bits, len + 1, lo, |bits|) && need > 0
    requires Coverable(bits, lo, {}, need, slots)
    ensures slots > 0 && Coverable(Marked(bits, start, len, true), lo, {}, need - len, slots - 1)
  {
    var n := |bits|;
    var runs :| |runs| <= slots && FreeRuns(bits, lo, runs) && |Covered(runs, n) + {}| >= need;
    assert Covered(runs, n) + {} == Covered(runs, n);
    var b :| b in Covered(runs, n);
    assert runs != [];
    var rest;
    if i :| 0 <= i < |runs| && Meets(runs[i], start, len) {
      rest := DropMet(bits, lo, start, len, runs, i);
    } else {
      rest := DropAny(bits, lo, start, len, runs);
    }
    assert Covered(rest, n) + {} == Covered(rest, n);
    assert FreeRuns(Marked(bits, start, len, true), lo, rest);
  }

  lemma CoverWith(bits: seq<bool>, lo: nat, start: nat, len: nat, need: int, slots: nat)
    requires lo <= start && FreeRun(bits, start, len) && slots > 0
    requires Coverable(Marked(bits, start, len, true), lo, {}, need - len, slots - 1)
    ensures Coverable(bits, lo, {}, need, slots)
  {
    var after, n := Marked(bits, start, len, true), |bits|;
    var runs :| |runs| <= slots - 1 && FreeRuns(after, lo, runs) && |Covered(runs, n) + {}| >= need - len;
    AddRun(bits, lo, start, len, runs);
    assert Covered(runs, n) + {} == Covered(runs, n);
    var more := runs + [Extent(start, len)];
    assert Covered(more, n) + {} == Covered(more, n);
    assert FreeRuns(bits, lo, more);
  }

  lemma LongestIsMaximal(bits: seq<bool>, lo: nat, start: nat, len: nat)
    requires lo <= start && FreeRun(bits, start, len) && NoFit(bits, len + 1, lo, |bits|)
    ensures Maximal(bits, lo, start, len)
  {
    assert !FreeRun(bits, start, len + 1) || start + len == |bits|;
    if start > lo {
      assert !FreeRun(bits, start - 1, len + 1);
    }
  }

  lemma AddRun(bits: seq<bool>, lo: nat, start: nat, len: nat, runs: seq<Extent>)
    requires lo <= start && FreeRun(bits, start, len) && FreeRuns(Marked(bits, start, len, true), lo, runs)
    ensures FreeRuns(bits, lo, runs + [Extent(start, len)])
    ensures |Covered(runs + [Extent(start, len)], |bits|)| == |Covered(runs, |bits|)| + len
  {
    var n, more := |bits|, runs + [Extent(start, len)];
    FreeInBoth(bits, lo, runs, start, len);
    InRunSet(start, len);
    RunSize(start, len);
    forall b: nat ensures b in Covered(more, n) <==> b in Covered(runs, n) || b in RunSet(start, len) {
      if b in Covered(runs, n) {
        var i :| 0 <= i < |runs| && InExtent(runs[i], b);
        assert InExtent(more[i], b);
      }
      if b in RunSet(start, len) {
        assert InExtent(more[|runs|], b);
      }
      if b in Covered(more, n) {
        var i :| 0 <= i < |more| && InExtent(more[i], b);
        assert i < |runs| ==> InExtent(runs[i], b);
      }
    }
    assert Covered(more, n) == Covered(runs, n) + RunSet(start, len);
    assert Covered(runs, n) * RunSet(start, len) == {};
  }

  /** One run that is long enough. */
  lemma CoverOne(bits: seq<bool>, lo: nat, start: nat, len: nat, extra: set<nat>, slots: nat)
    requires lo <= start && FreeRun(bits, start, len) && slots > 0
    ensures Coverable(bits, lo, extra, len, slots)
  {
    var runs, n := [Extent(start, len)], |bits|;
    InRunSet(start, len);
    RunSize(start, len);
    forall b | b in RunSet(start, len) ensures b in Covered(runs, n) {
      assert InExtent(runs[0], b);
    }
    SubsetSize(RunSet(start, len), Covered(runs, n) + extra);
    assert FreeRuns(bits, lo, runs);
  }

  /** Nothing is left to take. */
  lemma CoverNothing(bits: seq<bool>, lo: nat, need: int, slots: nat)
    requires need > 0 && (slots == 0 || NoFit(bits, 1, lo, |bits|))
    ensures !Coverable(bits, lo, {}, need, slots)
  {
    forall runs: seq<Extent> | |runs| <= slots && FreeRuns(bits, lo, runs) ensures |Covered(runs, |bits|) + {}| < need {
      if NoFit(bits, 1, lo, |bits|) {
        forall i {:trigger runs[i]} | 0 <= i < |runs| ensures runs[i].len == 0 {
          NoLonger(bits, lo, 0, runs[i]);
        }
      }
      assert forall b: nat :: !InSome(runs, b);
      assert Covered(runs, |bits|) + {} == {};
    }
  }

  // ----- growing an extent array -----

  /** The number of consecutive free blocks from `t` on. */
  ghost function FreeAhead(bits: seq<bool>, t: nat): nat
    decreases |bits| - t
  {
    if t >= |bits| || bits[t] then 0 else 1 + FreeAhead(bits, t + 1)
  }

  lemma {:induction false} FreeAheadIs(bits: seq<bool>, t: nat, len: nat)
    requires len > 0
    ensures FreeRun(bits, t, len) <==> len <= FreeAhead(bits, t)
    decreases len
  {
    if t < |bits| && !bits[t] && len > 1 {
      FreeAheadIs(bits, t + 1, len - 1);
      assert FreeRun(bits, t, len) <==> FreeRun(bits, t + 1, len - 1);
    }
  }

  lemma {:induction false} FreeAheadEnds(bits: seq<bool>, t: nat)
    requires t <= |bits|
    ensures FreeRun(bits, t, FreeAhead(bits, t))
    ensures t + FreeAhead(bits, t) == |bits| || bits[t + FreeAhead(bits, t)]
    decreases |bits| - t
  {
    if t < |bits| && !bits[t] {
      FreeAheadEnds(bits, t + 1);
    }
  }

  /** The block after the last one of a file. */
  ghost function EndOf(es: seq<Extent>): nat
    requires Phys(es) != []
  {
    Phys(es)[|Phys(es)| - 1] + 1
  }

  /** How far the last extent can be lengthened in place. */
  ghost function TailLen(bits: seq<bool>, lo: nat, es: seq<Extent>): nat { TailAfter(bits, lo, Phys(es)) }

  /** The number of consecutive free blocks right after the last one of a block map. */
  ghost function TailAfter(bits: seq<bool>, lo: nat, phys: seq<nat>): nat {
    if phys == [] || phys[|phys| - 1] + 1 < lo then 0 else FreeAhead(bits, phys[|phys| - 1] + 1)
  }

  ghost function TailSet(bits: seq<bool>, lo: nat, es: seq<Extent>): set<nat> {
    if Phys(es) == [] then {} else RunSet(EndOf(es), TailLen(bits, lo, es))
  }

  ghost function EmptySlots(es: seq<Extent>): nat {
    if es == [] then 0 else (if es[0].len == 0 then 1 else 0) + EmptySlots(es[1..])
  }

  lemma {:induction false} SlotFilled(es: seq<Extent>, k: nat, e: Extent)
    requires k < |es| && e.len > 0
    ensures EmptySlots(es[k := e]) == EmptySlots(es) - (if es[k].len == 0 then 1 else 0)
  {
    if k > 0 {
      SlotFilled(es[1..], k - 1, e);
      assert es[k := e][1..] == es[1..][k - 1 := e];
    } else {
      assert es[k := e][1..] == es[1..];
    }
  }

  lemma {:induction false} NoSlots(es: seq<Extent>)
    ensures EmptySlots(es) == 0 <==> forall i :: 0 <= i < |es| ==> es[i].len > 0
  {
    if es != [] {
      NoSlots(es[1..]);
      assert (forall i :: 0 <= i < |es| ==> es[i].len > 0) <==> es[0].len > 0 && forall i :: 0 <= i < |es[1..]| ==>
        es[1..][i].len > 0 by {
        assert forall i :: 1 <= i < |es| ==> es[i] == es[1..][i - 1];
      }
    }
  }

  /** The free run after the last extent and at most as many further free runs as there
      are empty slots hold the blocks that are missing. */
  ghost predicate CanGrow(bits: seq<bool>, lo: nat, es: seq<Extent>, need: nat) {
    Coverable(bits, lo, TailSet(bits, lo, es), need - |Phys(es)|, EmptySlots(es))
  }

  /** The last block of the file is a data block and marked. */
  ghost predicate Anchored(bits: seq<bool>, lo: nat, es: seq<Extent>) {
    Phys(es) != [] ==> lo < EndOf(es) <= |bits| && bits[EndOf(es) - 1]
  }

  lemma EnoughAlready(bits: seq<bool>, lo: nat, extra: set<nat>, need: int, slots: nat)
    requires need <= |extra|
    ensures Coverable(bits, lo, extra, need, slots)
  {
    var runs: seq<Extent> := [];
    SubsetSize(extra, Covered(runs, |bits|) + extra);
    assert FreeRuns(bits, lo, runs);
  }

  /** Whatever was just added is marked. */
  lemma AnchorMoves(bits: seq<bool>, lo: nat, es: seq<Extent>, es': seq<Extent>, start: nat, len: nat)
    requires lo <= start && start + len <= |bits| && len > 0 && Phys(es') == Phys(es) + Run(start, len)
    ensures Phys(es') != [] && EndOf(es') == start + len && Anchored(Marked(bits, start, len, true), lo, es')
  {
    assert Phys(es')[|Phys(es')| - 1] == Run(start, len)[len - 1];
  }

  /** Lengthening the last extent as far as needed. */
  lemma ExtendEnough(bits: seq<bool>, lo: nat, es: seq<Extent>, es': seq<Extent>, need: nat, got: nat)
    requires Phys(es) != [] && 0 < got == need - |Phys(es)| <= TailLen(bits, lo, es)
    requires Phys(es') == Phys(es) + Run(EndOf(es), got)
    ensures CanGrow(bits, lo, es, need)
    ensures var after := Marked(bits, EndOf(es), got, true); CanGrow(after, lo, es', need) && Anchored(after, lo, es')
  {
    var t, after := EndOf(es), Marked(bits, EndOf(es), got, true);
    FreeAheadIs(bits, t, got);
    AnchorMoves(bits, lo, es, es', t, got);
    RunSize(t, TailLen(bits, lo, es));
    EnoughAlready(bits, lo, TailSet(bits, lo, es), got, EmptySlots(es));
    EnoughAlready(after, lo, TailSet(after, lo, es'), 0, EmptySlots(es'));
  }

  /** Lengthening the last extent as far as possible. */
  lemma ExtendAll(bits: seq<bool>, lo: nat, es: seq<Extent>, es': seq<Extent>, need: nat)
    requires Anchored(bits, lo, es) && Phys(es) != [] && 0 < TailLen(bits, lo, es)
    requires Phys(es') == Phys(es) + Run(EndOf(es), TailLen(bits, lo, es)) && EmptySlots(es') == EmptySlots(es)
    ensures var after := Marked(bits, EndOf(es), TailLen(bits, lo, es), true);
            && (CanGrow(bits, lo, es, need) <==> CanGrow(after, lo, es', need)) && Anchored(after, lo, es')
            && TailLen(after, lo, es') == 0
  {
    var t, got := EndOf(es), TailLen(bits, lo, es);
    var after := Marked(bits, t, got, true);
    FreeAheadEnds(bits, t);
    AnchorMoves(bits, lo, es, es', t, got);
    assert Maximal(bits, lo, t, got);
    CoverTail(bits, lo, t, got, need - |Phys(es)|, EmptySlots(es));
    assert TailLen(after, lo, es') == 0;
    NoTail(after, lo, es');
  }

  lemma TailUsedUp(bits: seq<bool>, lo: nat, es: seq<Extent>, es': seq<Extent>)
    requires Phys(es) != [] && 0 < TailLen(bits, lo, es)
    requires Phys(es') == Phys(es) + Run(EndOf(es), TailLen(bits, lo, es))
    ensures TailLen(Marked(bits, EndOf(es), TailLen(bits, lo, es), true), lo, es') == 0
  {
    var t, got := EndOf(es), TailLen(bits, lo, es);
    FreeAheadIs(bits, t, got);
    FreeAheadEnds(bits, t);
    AnchorMoves(bits, lo, es, es', t, got);
  }

  /** Adding one run that is long enough as a new extent. */
  lemma AllocEnough(bits: seq<bool>, lo: nat, es: seq<Extent>, es': seq<Extent>, need: nat, start: nat, len: nat)
    requires lo <= start && FreeRun(bits, start, len) && 0 < len == need - |Phys(es)|
    requires Phys(es') == Phys(es) + Run(start, len) && EmptySlots(es) > 0
    ensures CanGrow(bits, lo, es, need)
    ensures var after := Marked(bits, start, len, true); CanGrow(after, lo, es', need) && Anchored(after, lo, es')
  {
    var after := Marked(bits, start, len, true);
    AnchorMoves(bits, lo, es, es', start, len);
    CoverOne(bits, lo, start, len, TailSet(bits, lo, es), EmptySlots(es));
    EnoughAlready(after, lo, TailSet(after, lo, es'), 0, EmptySlots(es'));
  }

  /** Adding the longest run as a new extent. */
  lemma AllocLongest(bits: seq<bool>, lo: nat, es: seq<Extent>, es': seq<Extent>, need: nat, start: nat, len: nat)
    requires TailLen(bits, lo, es) == 0 && lo <= start && FreeRun(bits, start, len) && 0 < len && |Phys(es)| < need
    requires NoFit(bits, len + 1, lo, |bits|)
    requires Phys(es') == Phys(es) + Run(start, len) && EmptySlots(es') + 1 == EmptySlots(es)
    ensures var after := Marked(bits, start, len, true);
            (CanGrow(bits, lo, es, need) <==> CanGrow(after, lo, es', need)) && Anchored(after, lo, es')
  {
    var after := Marked(bits, start, len, true);
    AnchorMoves(bits, lo, es, es', start, len);
    NoTail(bits, lo, es);
    CoverLongest(bits, lo, start, len, need - |Phys(es)|, EmptySlots(es));
    assert TailLen(after, lo, es') == 0;
    NoTail(after, lo, es');
  }

  lemma NoTail(bits: seq<bool>, lo: nat, es: seq<Extent>)
    requires TailLen(bits, lo, es) == 0
    ensures TailSet(bits, lo, es) == {}
  {
    if Phys(es) != [] {
      InRunSet(EndOf(es), 0);
    }
  }

  /** No further run to be had, or no slot for one. */
  lemma StuckStep(bits: seq<bool>, lo: nat, es: seq<Extent>, need: nat)
    requires TailLen(bits, lo, es) == 0 && |Phys(es)| < need
    requires NoFit(bits, 1, lo, |bits|) || EmptySlots(es) == 0
    ensures !CanGrow(bits, lo, es, need)
  {
    NoTail(bits, lo, es);
    CoverNothing(bits, lo, need - |Phys(es)|, EmptySlots(es));
  }

  /** Growing never makes do with fewer free blocks than are missing. */
  lemma NeedsBlocks(bits: seq<bool>, lo: nat, es: seq<Extent>, need: nat, free: set<nat>)
    requires forall b {:trigger b in free} :: lo <= b < |bits| && !bits[b] ==> b in free
    requires CanGrow(bits, lo, es, need)
    ensures need - |Phys(es)| <= |free|
  {
    var extra := TailSet(bits, lo, es);
    var runs: seq<Extent> :| |runs| <= EmptySlots(es) && FreeRuns(bits, lo, runs)
      && |Covered(runs, |bits|) + extra| >= need - |Phys(es)|;
    forall b | b in Covered(runs, |bits|) ensures b in free {
      var i :| 0 <= i < |runs| && InExtent(runs[i], b);
      assert FreeRun(bits, runs[i].start, runs[i].len);
    }
    forall b | b in extra ensures b in free {
      InRunSet(EndOf(es), TailLen(bits, lo, es));
      FreeAheadIs(bits, EndOf(es), TailLen(bits, lo, es));
    }
    SubsetSize(Covered(runs, |bits|) + extra, free);
  }
}
