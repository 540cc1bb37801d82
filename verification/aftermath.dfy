/** What a connection and a shutdown leave in the table. */
module Aftermath {
  import opened Users
  import opened Requests
  import opened Slots
  import opened SlotProofs
  import opened Paths

  /** Before shutdown the slots without a connection have the role of a guest. */
  ghost predicate FreeIsGuest(s: Sys)
    requires Shape(s)
  {
    && (!ShuttingDown(s.main) ==> forall i :: 0 <= i < MAX_CLIENTS && s.fds[i] == -1 ==> s.roles[i] == ROLE_GUEST)
    && (s.main.Stored? ==> s.roles[s.main.slot] == ROLE_GUEST)
  }

  lemma MainKeepsFree(s: Sys, step: Step)
    requires Shape(s) && FreeIsGuest(s)
    ensures FreeIsGuest(MainStep(s, step))
  {
  }

  lemma WorkerKeepsFree(env: Env, s: Sys, step: Step)
    requires Inv(env, s) && FreeIsGuest(s) && IsWorkerStep(step) && step.w < |s.workers|
    ensures FreeIsGuest(WorkerStep(env, s, step))
  {
    hide Exec, PutOpens, Fold, DescriptorsOk, RolesOk, Occupied, HasWorker, MutexOk;
    WorkerLeavesMain(env, s, step);
  }

  lemma {:induction false} RunKeepsFree(env: Env, s: Sys, steps: seq<Step>)
    requires Inv(env, s) && FreeIsGuest(s)
    ensures FreeIsGuest(Run(env, s, steps))
    decreases |steps|
  {
    hide FreeIsGuest, MutexOk, RolesOk, TableOk, DescriptorsOk, MainStep, WorkerStep;
    if steps != [] {
      StepKeepsInv(env, s, steps[0]);
      if !IsWorkerStep(steps[0]) {
        MainKeepsFree(s, steps[0]);
      } else if steps[0].w < |s.workers| {
        WorkerKeepsFree(env, s, steps[0]);
      }
      RunKeepsFree(env, Do(env, s, steps[0]), steps[1..]);
    }
  }

  /** Whatever role a connection had, its slot is a guest's again when it is free. */
  lemma FreeSlotsAreGuests(env: Env, tree: Tree, steps: seq<Step>, i: nat)
    requires i < 100
    ensures var s := Run(env, Initial(tree), steps);
            i < |s.fds| && i < |s.roles| && (!ShuttingDown(s.main) && s.fds[i] == -1 ==> s.roles[i] == 0)
  {
    hide Run;
    InitialInv(env, tree);
    RunKeepsFree(env, Initial(tree), steps);
  }

  /** The slots that shutdown has passed are empty, and in the end nothing is counted. */
  predicate Emptied(s: Sys)
    requires Shape(s)
  {
    && (s.main.Scanning? ==> forall i :: 0 <= i < s.main.slot ==> s.fds[i] < 0)
    && (s.main.Joining? ==> forall i :: 0 <= i <= s.main.slot ==> s.fds[i] < 0)
    && (PastJoins(s.main) ==> s.numClients == 0 && forall i :: 0 <= i < MAX_CLIENTS ==> s.fds[i] < 0)
  }

  lemma MainKeepsEmptied(s: Sys, step: Step)
    requires Shape(s) && Emptied(s)
    ensures Emptied(MainStep(s, step))
  {
    hide FirstFree;
  }

  lemma WorkerKeepsEmptied(env: Env, s: Sys, step: Step)
    requires Shape(s) && Emptied(s) && IsWorkerStep(step) && step.w < |s.workers|
    ensures Emptied(WorkerStep(env, s, step))
  {
    hide Exec, PutOpens;
  }

  lemma StepKeepsEmptied(env: Env, s: Sys, step: Step)
    requires Shape(s) && Emptied(s)
    ensures Emptied(Do(env, s, step))
  {
    hide Emptied, Shape, MainStep, WorkerStep;
    if !IsWorkerStep(step) {
      MainKeepsEmptied(s, step);
    } else if step.w < |s.workers| {
      WorkerKeepsEmptied(env, s, step);
    }
  }

  lemma {:induction false} RunKeepsEmptied(env: Env, s: Sys, steps: seq<Step>)
    requires Shape(s) && Emptied(s)
    ensures Emptied(Run(env, s, steps))
    decreases |steps|
  {
    hide Emptied, Shape, Do;
    if steps != [] {
      StepKeepsEmptied(env, s, steps[0]);
      RunKeepsEmptied(env, Do(env, s, steps[0]), steps[1..]);
    }
  }

  /** A shutdown that gets past its joins leaves no slot occupied and counts no client. */
  lemma ShutdownEmptiesTable(env: Env, tree: Tree, steps: seq<Step>)
    ensures var s := Run(env, Initial(tree), steps);
            PastJoins(s.main) ==> s.numClients == 0 && forall i :: 0 <= i < |s.fds| ==> s.fds[i] < 0
  {
    hide Run;
    RunKeepsEmptied(env, Initial(tree), steps);
  }
}
