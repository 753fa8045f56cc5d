/** Runs of operations, one after the other, as sequences of states. */
module Runs {
  /** `trace` holds the states of a run, `done` says which operations succeeded. */
  ghost predicate Ran<S, O>(step: (S, O, bool, S) -> bool, ops: seq<O>, done: seq<bool>, trace: seq<S>) {
    && |done| <= |ops| && |trace| == |done| + 1
    && forall i {:trigger ops[i]} :: 0 <= i < |done| ==> step(trace[i], ops[i], done[i], trace[i + 1])
  }

  lemma RanOneMore<S, O>(step: (S, O, bool, S) -> bool, ops: seq<O>, done: seq<bool>, trace: seq<S>, ok: bool, s: S)
    requires Ran(step, ops, done, trace) && |done| < |ops| && step(trace[|done|], ops[|done|], ok, s)
    ensures Ran(step, ops, done + [ok], trace + [s])
  {
    var done', trace' := done + [ok], trace + [s];
    forall i {:trigger ops[i]} | 0 <= i < |done'| ensures step(trace'[i], ops[i], done'[i], trace'[i + 1]) {
      if i < |done| {
        assert trace'[i] == trace[i] && trace'[i + 1] == trace[i + 1] && done'[i] == done[i];
        assert step(trace[i], ops[i], done[i], trace[i + 1]);
      }
    }
  }
}
