/** Procedures that go on step by step until they end: where one ends is determined if
    each of its steps is. */
module Traces {
  ghost predicate StepAt<S>(step: (S, S) -> bool, t: seq<S>, i: nat)
    requires i + 1 < |t|
  {
    step(t[i], t[i + 1])
  }

  ghost predicate IsTrace<S>(step: (S, S) -> bool, t: seq<S>, a: S, b: S) {
    t != [] && t[0] == a && t[|t| - 1] == b && forall i: nat :: i + 1 < |t| ==> StepAt(step, t, i)
  }

  ghost predicate Reaches<S(!new)>(step: (S, S) -> bool, a: S, b: S) {
    exists t: seq<S> :: IsTrace(step, t, a, b)
  }

  lemma ReachesItself<S(!new)>(step: (S, S) -> bool, a: S)
    ensures Reaches(step, a, a)
  {
    assert IsTrace(step, [a], a, a);
  }

  lemma ReachesNext<S(!new)>(step: (S, S) -> bool, a: S, b: S, c: S)
    requires Reaches(step, a, b) && step(b, c)
    ensures Reaches(step, a, c)
  {
    var t: seq<S> :| IsTrace(step, t, a, b);
    var u := t + [c];
    forall i: nat | i + 1 < |u| ensures StepAt(step, u, i) {
      assert i + 1 < |t| ==> StepAt(step, t, i);
    }
    assert IsTrace(step, u, a, c);
  }

  lemma {:induction false} ReachesAlong<S(!new)>(step: (S, S) -> bool, a: S, b: S, c: S, t: seq<S>)
    requires Reaches(step, a, b) && IsTrace(step, t, b, c)
    ensures Reaches(step, a, c)
    decreases |t|
  {
    if |t| > 1 {
      var n := |t| - 2;
      var u := t[..n + 1];
      assert StepAt(step, t, n);
      forall i: nat | i + 1 < |u| ensures StepAt(step, u, i) {
        assert StepAt(step, t, i);
      }
      ReachesAlong(step, a, b, t[n], u);
      ReachesNext(step, a, t[n], c);
    }
  }

  lemma ReachesOn<S(!new)>(step: (S, S) -> bool, a: S, b: S, c: S)
    requires Reaches(step, a, b) && Reaches(step, b, c)
    ensures Reaches(step, a, c)
  {
    var t: seq<S> :| IsTrace(step, t, b, c);
    ReachesAlong(step, a, b, c, t);
  }

  /** There is at most one next step. */
  ghost predicate Determined<S(!new)>(step: (S, S) -> bool) {
    forall x, y, z :: step(x, y) && step(x, z) ==> y == z
  }

  /** There is no next step. */
  ghost predicate Final<S(!new)>(step: (S, S) -> bool, a: S) {
    forall b :: !step(a, b)
  }

  lemma {:induction false} SameTrace<S(!new)>(step: (S, S) -> bool, t: seq<S>, u: seq<S>, a: S, b: S, c: S, i: nat)
    requires Determined(step) && IsTrace(step, t, a, b) && IsTrace(step, u, a, c) && i < |t| && i < |u|
    ensures t[i] == u[i]
  {
    if i > 0 {
      SameTrace(step, t, u, a, b, c, i - 1);
      assert StepAt(step, t, i - 1) && StepAt(step, u, i - 1);
    }
  }

  lemma EndIsEnd<S(!new)>(step: (S, S) -> bool, t: seq<S>, u: seq<S>, a: S, b: S, c: S)
    requires Determined(step) && IsTrace(step, t, a, b) && IsTrace(step, u, a, c) && Final(step, b)
    ensures |u| <= |t|
  {
    if |t| < |u| {
      SameTrace(step, t, u, a, b, c, |t| - 1);
      StepInTrace(step, u, a, c, |t| - 1);
    }
  }

  lemma StepInTrace<S(!new)>(step: (S, S) -> bool, t: seq<S>, a: S, b: S, i: nat)
    requires IsTrace(step, t, a, b) && i + 1 < |t|
    ensures step(t[i], t[i + 1])
  {
    assert StepAt(step, t, i);
  }

  lemma EndOnce<S(!new)>(step: (S, S) -> bool, a: S, b: S, c: S)
    requires Determined(step) && Reaches(step, a, b) && Reaches(step, a, c) && Final(step, b) && Final(step, c)
    ensures c == b
  {
    var t: seq<S> :| IsTrace(step, t, a, b);
    var u: seq<S> :| IsTrace(step, u, a, c);
    EndIsEnd(step, t, u, a, b, c);
    EndIsEnd(step, u, t, a, c, b);
    SameTrace(step, t, u, a, b, c, |t| - 1);
  }
}
