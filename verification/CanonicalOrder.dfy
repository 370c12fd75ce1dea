/**
 The owner's submissions and the scheduler's starts together: the window submits
 handles in increasing order, so over any interleaving tasks start in that order.
 */
module CanonicalOrder {
  import opened Scheduler
  import Batches
  import WorkerTasks

  /** The ids a run of the scheduler was given, in order. */
  function SubmittedIds(steps: seq<Step>): seq<int> {
    if steps == [] then []
    else SubmittedIds(steps[..|steps| - 1]) + (if steps[|steps| - 1].Submit? then [steps[|steps| - 1].id] else [])
  }

  function Handles(log: seq<Batches.Submission>): (hs: seq<int>)
    ensures |hs| == |log| && forall i :: 0 <= i < |log| ==> hs[i] == log[i].handle
  {
    seq(|log|, i requires 0 <= i < |log| => log[i].handle)
  }

  ghost predicate Increasing(ids: seq<int>) {
    (forall i :: 0 <= i < |ids| ==> ids[i] > 0) && forall i, j :: 0 <= i < j < |ids| ==> ids[i] < ids[j]
  }

  /** The last id submitted in the first `k` steps, or 0. */
  function LastOf(steps: seq<Step>, k: nat): int
    requires k <= |steps|
  {
    if k == 0 then 0 else LastId(LastOf(steps, k - 1), steps[k - 1])
  }

  lemma {:induction false} LastSubmitted(steps: seq<Step>, k: nat)
    requires k <= |steps|
    ensures var ids := SubmittedIds(steps[..k]); LastOf(steps, k) == if ids == [] then 0 else ids[|ids| - 1]
  {
    if k > 0 {
      LastSubmitted(steps, k - 1);
      assert steps[..k][..k - 1] == steps[..k - 1];
    }
  }

  lemma {:induction false} PrefixIds(steps: seq<Step>, k: nat)
    requires k <= |steps|
    ensures SubmittedIds(steps[..k]) <= SubmittedIds(steps)
    decreases |steps|
  {
    if k < |steps| {
      PrefixIds(steps[..|steps| - 1], k);
      assert steps[..|steps| - 1][..k] == steps[..k];
    } else {
      assert steps[..k] == steps;
    }
  }

  lemma SubmitsAbove(steps: seq<Step>, k: nat)
    requires k < |steps| && Increasing(SubmittedIds(steps))
    ensures CanonicalSubmit(LastOf(steps, k), steps[k])
  {
    LastSubmitted(steps, k);
    PrefixIds(steps, k + 1);
    assert steps[..k + 1][..k] == steps[..k];
    if steps[k].Submit? {
      var ids, all := SubmittedIds(steps[..k]), SubmittedIds(steps);
      assert SubmittedIds(steps[..k + 1]) == ids + [steps[k].id];
      assert all[|ids|] == (ids + [steps[k].id])[|ids|];
      if ids != [] { assert all[|ids| - 1] == (ids + [steps[k].id])[|ids| - 1]; }
    }
  }

  /** Tasks start in the order the owner submitted them: in any run of the scheduler that was given the owner's
      submissions, or the first of them, the ids started so far strictly increase. */
  lemma TasksStartInOrder(workers: WorkerTasks.Workers, run: seq<State>, steps: seq<Step>, activeLimit: nat, outstandingLimit: nat, k: nat)
    requires workers.Valid()
    requires IsRun(run, steps, activeLimit, outstandingLimit) && SubmittedIds(steps) <= Handles(workers.log) && k < |run|
    ensures forall i, j :: 0 <= i < j < |run[k].started| ==> run[k].started[i].id < run[k].started[j].id
  {
    LogIncreases(workers.groups, workers.owner.nextHandle, workers.log, SubmittedIds(steps));
    var lasts := seq(|run|, i requires 0 <= i < |run| && |run| == |steps| + 1 => LastOf(steps, i));
    forall i | 0 <= i < |steps| ensures CanonicalSubmit(lasts[i], steps[i]) && lasts[i + 1] == LastId(lasts[i], steps[i]) {
      SubmitsAbove(steps, i);
    }
    StartsInOrder(run, steps, lasts, activeLimit, outstandingLimit, k);
  }

  lemma LogIncreases(groups: seq<Batches.Group>, nextHandle: int, log: seq<Batches.Submission>, ids: seq<int>)
    requires Batches.Logged(groups, nextHandle, log) && ids <= Handles(log)
    ensures Increasing(ids)
  {
    forall i | 0 <= i < |ids| ensures ids[i] > 0 { assert Batches.Sent(groups, nextHandle, log, i) && ids[i] == log[i].handle; }
    forall i, j | 0 <= i < j < |ids| ensures ids[i] < ids[j] { assert Batches.Follows(log, j) && ids[i] == log[i].handle && ids[j] == log[j].handle; }
  }
}
