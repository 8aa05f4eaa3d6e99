/** The issue panel's translation workflow: a fixed list of stages that a
    status steps through one at a time. */
module Workflow {

  const Stages: seq<string> := ["Pending", "In Progress", "Review", "Revision", "Completed"]

  const Final: string := "Completed"

  /** `workflowStages.indexOf(status)`: the position of `status`, or -1. */
  function IndexOf(stages: seq<string>, status: string): (r: int)
    ensures -1 <= r < |stages|
    ensures r >= 0 ==> stages[r] == status && forall k :: 0 <= k < r ==> stages[k] != status
    ensures r == -1 <==> status !in stages
    decreases |stages|
  {
    if |stages| == 0 then -1
    else if stages[0] == status then 0
    else
      var r := IndexOf(stages[1..], status);
      assert status in stages <==> status in stages[1..];
      if r == -1 then -1 else r + 1
  }

  /** No stage is listed twice. */
  predicate Distinct(stages: seq<string>) {
    forall i, j :: 0 <= i < j < |stages| ==> stages[i] != stages[j]
  }

  /** `canAdvance` for a stage list whose last stage is the final one. */
  predicate CanAdvanceIn(stages: seq<string>, status: string)
    requires |stages| > 0
  {
    status != stages[|stages| - 1] && IndexOf(stages, status) < |stages| - 1
  }

  /** `advanceWorkflow` on a stage list. The new status is only taken once
      both saves succeed (`saved`); otherwise the status stays. */
  function AdvanceIn(stages: seq<string>, status: string, saved: bool): string {
    var i := IndexOf(stages, status);
    if i < |stages| - 1 && saved then stages[i + 1] else status
  }

  /** Advancing `n` times with every save succeeding. */
  function AdvanceTimesIn(stages: seq<string>, status: string, n: nat): string
    decreases n
  {
    if n == 0 then status else AdvanceTimesIn(stages, AdvanceIn(stages, status, true), n - 1)
  }

  lemma IndexOfDistinct(stages: seq<string>, i: nat)
    requires Distinct(stages) && i < |stages|
    ensures IndexOf(stages, stages[i]) == i
  {
  }

  lemma CanAdvanceInIff(stages: seq<string>, status: string)
    requires |stages| > 0
    ensures CanAdvanceIn(stages, status) <==> status != stages[|stages| - 1]
  {
  }

  lemma AdvanceInMoves(stages: seq<string>, status: string)
    requires Distinct(stages) && |stages| > 0
    ensures AdvanceIn(stages, status, true) != status <==> CanAdvanceIn(stages, status)
    ensures AdvanceIn(stages, status, false) == status
  {
    var i := IndexOf(stages, status);
    if 0 <= i < |stages| - 1 {
      assert stages[i + 1] != stages[i];
    } else if i == -1 {
      assert stages[0] in stages;
    }
  }

  lemma AdvanceInStep(stages: seq<string>, i: nat)
    requires Distinct(stages) && i < |stages|
    ensures i < |stages| - 1 ==> AdvanceIn(stages, stages[i], true) == stages[i + 1]
    ensures i == |stages| - 1 ==> AdvanceIn(stages, stages[i], true) == stages[i]
  {
    IndexOfDistinct(stages, i);
  }

  lemma {:induction false} StepsFromIn(stages: seq<string>, i: nat, n: nat)
    requires Distinct(stages) && i < |stages| && n >= |stages| - 1 - i
    ensures AdvanceTimesIn(stages, stages[i], n) == stages[|stages| - 1]
    decreases n
  {
    if n > 0 {
      AdvanceInStep(stages, i);
      if i < |stages| - 1 {
        StepsFromIn(stages, i + 1, n - 1);
      } else {
        StepsFromIn(stages, i, n - 1);
      }
    }
  }

  lemma ReachesLastIn(stages: seq<string>, status: string, n: nat)
    requires Distinct(stages) && |stages| > 0 && n >= |stages|
    ensures AdvanceTimesIn(stages, status, n) == stages[|stages| - 1]
  {
    var i := IndexOf(stages, status);
    if i == -1 {
      StepsFromIn(stages, 0, n - 1);
    } else {
      AdvanceInStep(stages, i);
      if i < |stages| - 1 {
        StepsFromIn(stages, i + 1, n - 1);
      } else {
        StepsFromIn(stages, i, n - 1);
      }
    }
  }

  // ---------------------------------------------------------------------------
  // The issue panel's five stages

  lemma StagesWellFormed()
    ensures Distinct(Stages) && Stages[|Stages| - 1] == Final
  {
  }

  /** `canAdvance`. */
  predicate CanAdvance(status: string) {
    status != Final && IndexOf(Stages, status) < |Stages| - 1
  }

  /** `advanceWorkflow`. */
  function Advance(status: string, saved: bool): string {
    AdvanceIn(Stages, status, saved)
  }

  /** The guard on `Completed` is the only one that matters: every other
      status, known or not, can advance. */
  lemma CanAdvanceIff(status: string)
    ensures CanAdvance(status) <==> status != Final
  {
    CanAdvanceInIff(Stages, status);
  }

  /** A status moves exactly when it can advance and the saves succeed. */
  lemma AdvanceMoves(status: string)
    ensures Advance(status, true) != status <==> CanAdvance(status)
    ensures Advance(status, false) == status
  {
    StagesWellFormed();
    AdvanceInMoves(Stages, status);
  }

  /** A known stage steps to the one after it; `Completed` stays. */
  lemma AdvanceStep(i: nat)
    requires i < |Stages|
    ensures i < |Stages| - 1 ==> Advance(Stages[i], true) == Stages[i + 1]
    ensures i == |Stages| - 1 ==> Advance(Stages[i], true) == Stages[i]
  {
    StagesWellFormed();
    AdvanceInStep(Stages, i);
  }

  /** A status outside the list (`indexOf` gives -1) lands on the first stage. */
  lemma UnknownStatusRestarts(status: string)
    requires status !in Stages
    ensures Advance(status, true) == Stages[0]
  {
  }

  /** Whatever the starting status, five successful steps reach `Completed`. */
  lemma ReachesCompleted(status: string, n: nat)
    requires n >= |Stages|
    ensures AdvanceTimesIn(Stages, status, n) == Final
  {
    StagesWellFormed();
    ReachesLastIn(Stages, status, n);
  }
}
