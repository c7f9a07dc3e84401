/** Runs of step functions. The steps of a run are taken one after the other from a
    start, and its trace lists the states before and after each of them. */
module Traces {
  import opened Common

  /** The state after all steps of the run. */
  ghost function Outcome<S, W>(start: W, run: seq<S>, next: (W, S) -> W): W {
    if run == [] then start else next(Outcome(start, run[..|run| - 1], next), Last(run))
  }

  ghost predicate StepTaken<S, W>(run: seq<S>, trace: seq<W>, k: nat, next: (W, S) -> W)
    requires k < |run| && |trace| == |run| + 1
  {
    trace[k + 1] == next(trace[k], run[k])
  }

  /** `trace[k]` is the state after `k` steps. */
  ghost predicate IsTrace<S, W>(start: W, run: seq<S>, trace: seq<W>, next: (W, S) -> W) {
    && |trace| == |run| + 1 && trace[0] == start
    && forall k {:trigger StepTaken(run, trace, k, next)} :: 0 <= k < |run| ==> StepTaken(run, trace, k, next)
  }

  lemma {:induction false} TraceOutcome<S, W>(start: W, run: seq<S>, trace: seq<W>, next: (W, S) -> W, k: nat)
    requires IsTrace(start, run, trace, next) && k <= |run|
    ensures trace[k] == Outcome(start, run[..k], next)
  {
    if k > 0 {
      TraceOutcome(start, run, trace, next, k - 1);
      assert StepTaken(run, trace, k - 1, next);
      assert run[..k][..k - 1] == run[..k - 1];
    }
  }

  ghost function TraceOf<S, W>(start: W, run: seq<S>, next: (W, S) -> W): (trace: seq<W>)
    ensures |trace| == |run| + 1
  {
    seq(|run| + 1, k requires 0 <= k <= |run| => Outcome(start, run[..k], next))
  }

  /** Every run has exactly one trace. */
  lemma TraceExactly<S, W>(start: W, run: seq<S>, trace: seq<W>, next: (W, S) -> W)
    ensures IsTrace(start, run, trace, next) <==> trace == TraceOf(start, run, next)
  {
    if IsTrace(start, run, trace, next) {
      forall k | 0 <= k <= |run| ensures trace[k] == TraceOf(start, run, next)[k] {
        TraceOutcome(start, run, trace, next, k);
      }
    } else {
      var t := TraceOf(start, run, next);
      forall k | 0 <= k < |run| ensures StepTaken(run, t, k, next) {
        assert run[..k + 1][..k] == run[..k];
      }
      assert run[..0] == [];
    }
  }

  lemma {:induction false} OutcomeOfBoth<S, W>(start: W, a: seq<S>, b: seq<S>, next: (W, S) -> W)
    ensures Outcome(start, a + b, next) == Outcome(Outcome(start, a, next), b, next)
  {
    if b == [] {
      assert a + b == a;
    } else {
      OutcomeOfBoth(start, a, b[..|b| - 1], next);
      assert (a + b)[..|a + b| - 1] == a + b[..|b| - 1];
    }
  }

  lemma OutcomeOfOne<S, W>(start: W, step: S, next: (W, S) -> W)
    ensures Outcome(start, [step], next) == next(start, step)
  {
    assert [step][..0] == [];
  }

  /** Step `j` brought the view to where it still is at `k`. */
  ghost predicate Entered<W, V>(trace: seq<W>, view: W -> V, j: int, k: nat)
    requires k < |trace|
  {
    && 0 <= j < k && view(trace[j]) != view(trace[k])
    && forall m :: j < m <= k ==> view(trace[m]) == view(trace[k])
  }

  /** Where a view differs from the start, some last step changed it. */
  lemma {:induction false} LastChange<W, V>(trace: seq<W>, view: W -> V, k: nat)
    requires k < |trace| && view(trace[k]) != view(trace[0])
    ensures exists j :: Entered(trace, view, j, k)
  {
    if view(trace[k - 1]) != view(trace[k]) {
      assert Entered(trace, view, k - 1, k);
    } else {
      LastChange(trace, view, k - 1);
      var j :| Entered(trace, view, j, k - 1);
      assert Entered(trace, view, j, k);
    }
  }
}
