/** The interleaved uploads as runs of the concurrent server: a step of an upload
    is a step of the worker that serves its connection. */
module Uploads {
  import opened CBytes
  import opened Paths
  import opened Resolve
  import opened Requests
  import opened Streams
  import opened Slots
  import Interleave

  function PutRequest(job: Interleave.Job): Request {
    Requests.Request(CMD_PUT, job.path, Flatten(job.chunks))
  }

  /** The step of worker w that is the next step of a job after done of its steps. */
  function StepOf(job: Interleave.Job, done: nat, w: nat): Step {
    if done == 0 then PutOpen(w, PutRequest(job))
    else if done <= |job.chunks| then PutChunk(w, job.chunks[done - 1])
    else PutClose(w, false)
  }

  /** A schedule of the jobs as steps of the workers who serve them. */
  function StepsOf(place: Place, jobs: seq<Interleave.Job>, who: seq<nat>, p: Interleave.State, schedule: seq<nat>)
    : seq<Step>
    requires Interleave.Fit(jobs, p) && |who| == |jobs|
    requires forall i :: 0 <= i < |schedule| ==> schedule[i] < |jobs|
    decreases |schedule|
  {
    if schedule == [] then []
    else
      var k := schedule[0];
      [StepOf(jobs[k], p.done[k], who[k])] +
      StepsOf(place, jobs, who, Interleave.Advance(place, jobs, p, k), schedule[1..])
  }

  predicate CanPut(env: Env, role: int) {
    CheckPermission(role, CMD_PUT) && !Gated(env, role, CMD_PUT)
  }

  /** A worker is where its job is: serving, or with the job's file open. */
  predicate AtJob(env: Env, s: Sys, w: nat, job: Interleave.Job, done: nat, handle: Option<Path>)
    requires Shape(s)
  {
    && w < |s.workers| && CanPut(env, s.roles[s.workers[w].slot])
    && if 0 < done <= |job.chunks| + 1
       then s.workers[w].pc.Putting? && handle == Some(s.workers[w].pc.target)
       else s.workers[w].pc.Serving?
  }

  ghost predicate Mirrors(env: Env, jobs: seq<Interleave.Job>, who: seq<nat>, p: Interleave.State, s: Sys)
    requires Interleave.Fit(jobs, p) && |who| == |jobs| && Shape(s)
  {
    && s.tree == p.tree
    && forall k :: 0 <= k < |jobs| ==> AtJob(env, s, who[k], jobs[k], p.done[k], p.handles[k])
  }

  ghost predicate Distinct(who: seq<nat>) {
    forall j, k :: 0 <= j < k < |who| ==> who[j] != who[k]
  }

  lemma StepMirrored(env: Env, jobs: seq<Interleave.Job>, who: seq<nat>, p: Interleave.State, s: Sys, k: nat)
    requires Interleave.Fit(jobs, p) && |who| == |jobs| && Shape(s) && Distinct(who) && k < |jobs|
    requires Mirrors(env, jobs, who, p, s)
    ensures Mirrors(env, jobs, who, Interleave.Advance(env.place, jobs, p, k),
                    Do(env, s, StepOf(jobs[k], p.done[k], who[k])))
  {
    hide Exec, PutTarget, CheckPermission, Gated, Flatten;
    var q := Interleave.Advance(env.place, jobs, p, k);
    var r := Do(env, s, StepOf(jobs[k], p.done[k], who[k]));
    OwnStep(env, jobs[k], p, s, k, who[k], jobs);
    hide Do, Interleave.Advance;
    forall j | 0 <= j < |jobs| ensures AtJob(env, r, who[j], jobs[j], q.done[j], q.handles[j]) {
      assert AtJob(env, s, who[j], jobs[j], p.done[j], p.handles[j]);
      assert j != k ==> who[j] != who[k];
    }
  }

  /** What one step does to its own job and leaves alone. */
  lemma OwnStep(env: Env, job: Interleave.Job, p: Interleave.State, s: Sys, k: nat, w: nat, jobs: seq<Interleave.Job>)
    requires Interleave.Fit(jobs, p) && Shape(s) && k < |jobs| && job == jobs[k] && s.tree == p.tree
    requires AtJob(env, s, w, job, p.done[k], p.handles[k])
    ensures var q := Interleave.Advance(env.place, jobs, p, k);
            var r := Do(env, s, StepOf(job, p.done[k], w));
            && r.tree == q.tree && AtJob(env, r, w, job, q.done[k], q.handles[k])
            && r.roles == s.roles && |r.workers| == |s.workers|
            && (forall v :: 0 <= v < |s.workers| ==> r.workers[v].slot == s.workers[v].slot)
            && (forall v :: 0 <= v < |s.workers| && v != w ==> r.workers[v] == s.workers[v])
            && (forall j :: 0 <= j < |jobs| && j != k ==> q.done[j] == p.done[j] && q.handles[j] == p.handles[j])
  {
    hide Exec, PutTarget, CheckPermission, Gated, Flatten, MainStep;
  }

  /** The concurrent server that takes these steps does to the tree what the
      schedule of the uploads does. */
  lemma {:induction false} RunIsPlay(env: Env, jobs: seq<Interleave.Job>, who: seq<nat>, p: Interleave.State, s: Sys,
                                     schedule: seq<nat>)
    requires Interleave.Fit(jobs, p) && |who| == |jobs| && Shape(s) && Distinct(who)
    requires Mirrors(env, jobs, who, p, s)
    requires forall i :: 0 <= i < |schedule| ==> schedule[i] < |jobs|
    ensures Run(env, s, StepsOf(env.place, jobs, who, p, schedule)).tree ==
            Interleave.Play(env.place, jobs, p, schedule).tree
    decreases |schedule|
  {
    hide Do, Interleave.Advance, StepOf, Shape;
    if schedule == [] {
      hide AtJob;
    } else {
      var k := schedule[0];
      StepMirrored(env, jobs, who, p, s, k);
      var q, r := Interleave.Advance(env.place, jobs, p, k), Do(env, s, StepOf(jobs[k], p.done[k], who[k]));
      hide Mirrors;
      RunIsPlay(env, jobs, who, q, r, schedule[1..]);
      var rest := StepsOf(env.place, jobs, who, q, schedule[1..]);
      assert ([StepOf(jobs[k], p.done[k], who[k])] + rest)[1..] == rest;
    }
  }

  /** Workers that are ready for their uploads. */
  ghost predicate Ready(env: Env, s: Sys, who: seq<nat>)
    requires Shape(s)
  {
    Distinct(who) &&
    forall k :: 0 <= k < |who| ==>
      who[k] < |s.workers| && s.workers[who[k]].pc.Serving? && CanPut(env, s.roles[s.workers[who[k]].slot])
  }

  /** Uploads to distinct targets by any workers of the concurrent server: every
      complete interleaving of their steps ends in the tree that they end in when
      they run one after another, in whatever order. */
  lemma ConcurrentUploadsAreSerial(env: Env, s: Sys, jobs: seq<Interleave.Job>, who: seq<nat>, targets: seq<Path>,
                                   top: Path, schedule: seq<nat>, order: seq<nat>)
    requires Shape(s) && Ready(env, s, who) && |who| == |jobs|
    requires Interleave.DistinctTargets(env.place, s.tree, jobs, targets, top)
    requires Interleave.Complete(jobs, schedule)
    requires forall i :: 0 <= i < |order| ==> order[i] < |jobs|
    requires forall k :: 0 <= k < |jobs| ==> Interleave.Turns(order, k) == 1
    ensures var p := Interleave.Start(s.tree, jobs);
            Run(env, s, StepsOf(env.place, jobs, who, p, schedule)).tree ==
            Run(env, s, StepsOf(env.place, jobs, who, p, Interleave.InOrder(jobs, order))).tree
  {
    hide Run, StepsOf, Interleave.DistinctTargets, Interleave.Play, Interleave.InOrder, Shape, CanPut;
    var p := Interleave.Start(s.tree, jobs);
    RunIsPlay(env, jobs, who, p, s, schedule);
    RunIsPlay(env, jobs, who, p, s, Interleave.InOrder(jobs, order));
    Interleave.InterleavingIsSerial(env.place, s.tree, jobs, targets, top, schedule, order);
  }
}
