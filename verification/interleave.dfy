/** Uploads that run at the same time: every PUT opens its file, writes its
    chunks and closes it, and the steps of different PUTs come in any order. */
module Interleave {
  import opened CBytes
  import opened Paths
  import opened Resolve
  import opened Stability
  import opened Streams

  /** One PUT: the request's path and the pieces in which its data is written. */
  datatype Job = Job(path: Bytes, chunks: seq<Bytes>)

  /** The tree, how many of its steps each job has done, and the open files. */
  datatype State = State(tree: Tree, done: seq<nat>, handles: seq<Option<Path>>)

  function Steps(job: Job): nat {
    |job.chunks| + 2
  }

  predicate Fit(jobs: seq<Job>, s: State) {
    |s.done| == |s.handles| == |jobs|
  }

  function Start(t: Tree, jobs: seq<Job>): (s: State)
    ensures Fit(jobs, s)
  {
    State(t, seq(|jobs|, _ => 0), seq(|jobs|, _ => None))
  }

  /** The next step of job k: get_full_path and fopen, an fwrite, or fclose. */
  function Advance(place: Place, jobs: seq<Job>, s: State, k: nat): (r: State)
    requires Fit(jobs, s) && k < |jobs|
    ensures Fit(jobs, r)
  {
    var i, job := s.done[k], jobs[k];
    if i == 0 then
      match PutTarget(place, s.tree, job.path)
      case None => s.(done := s.done[k := Steps(job)])
      case Some(p) => State(s.tree[p := File([])], s.done[k := 1], s.handles[k := Some(p)])
    else if i <= |job.chunks| then
      var h := s.handles[k];
      var u := if h.Some? && h.value in s.tree && s.tree[h.value].File?
               then s.tree[h.value := File(s.tree[h.value].content + job.chunks[i - 1])] else s.tree;
      State(u, s.done[k := i + 1], s.handles)
    else if i == |job.chunks| + 1 then
      State(s.tree, s.done[k := i + 1], s.handles[k := None])
    else s
  }

  /** A schedule names, step by step, the job whose turn it is. */
  function Play(place: Place, jobs: seq<Job>, s: State, schedule: seq<nat>): (r: State)
    requires Fit(jobs, s) && forall i :: 0 <= i < |schedule| ==> schedule[i] < |jobs|
    ensures Fit(jobs, r)
    decreases |schedule|
  {
    if schedule == [] then s
    else Play(place, jobs, Advance(place, jobs, s, schedule[0]), schedule[1..])
  }

  function Turns(schedule: seq<nat>, k: nat): nat {
    if schedule == [] then 0 else (if schedule[0] == k then 1 else 0) + Turns(schedule[1..], k)
  }

  /** Every job gets to do all of its steps. */
  ghost predicate Complete(jobs: seq<Job>, schedule: seq<nat>) {
    && (forall i :: 0 <= i < |schedule| ==> schedule[i] < |jobs|)
    && (forall k :: 0 <= k < |jobs| ==> Turns(schedule, k) == Steps(jobs[k]))
  }

  /** The jobs resolve to pairwise distinct files in the tree they start from. */
  ghost predicate DistinctTargets(place: Place, t: Tree, jobs: seq<Job>, targets: seq<Path>, top: Path) {
    && Served(place, t) && RootPath(place, t) == Some(top) && top != []
    && |targets| == |jobs|
    && (forall k :: 0 <= k < |jobs| ==>
          && Steady(place, t, jobs[k].path)
          && PutTarget(place, t, jobs[k].path) == Some(targets[k]))
    && (forall j, k :: 0 <= j < k < |jobs| ==> targets[j] != targets[k])
  }

  /** What job k has written after i of its steps. */
  function Written(job: Job, i: nat): Bytes
    requires i > 0
  {
    Flatten(job.chunks[..Min(i - 1, |job.chunks|)])
  }

  /** The targets opened so far hold what their own jobs have written. */
  ghost predicate OwnContents(jobs: seq<Job>, targets: seq<Path>, s: State)
    requires Fit(jobs, s) && |targets| == |jobs|
  {
    && (forall k :: 0 <= k < |jobs| && s.done[k] > 0 ==>
          targets[k] in s.tree && s.tree[targets[k]] == File(Written(jobs[k], s.done[k])))
    && (forall k :: 0 <= k < |jobs| && 0 < s.done[k] <= |jobs[k].chunks| ==> s.handles[k] == Some(targets[k]))
  }

  ghost predicate Untouched(targets: seq<Path>, done: seq<nat>, p: Path)
    requires |targets| == |done|
  {
    forall k :: 0 <= k < |done| && done[k] > 0 ==> targets[k] != p
  }

  /** All else is as it was. */
  ghost predicate OthersKept(t: Tree, targets: seq<Path>, done: seq<nat>, u: Tree)
    requires |targets| == |done|
  {
    forall p :: Untouched(targets, done, p) ==> (p in u <==> p in t) && (p in t ==> u[p] == t[p])
  }

  ghost predicate Apart(t: Tree, jobs: seq<Job>, targets: seq<Path>, s: State)
    requires Fit(jobs, s) && |targets| == |jobs|
  {
    OwnContents(jobs, targets, s) && OthersKept(t, targets, s.done, s.tree)
  }

  lemma {:induction false} FlattenSnoc(parts: seq<Bytes>, part: Bytes)
    ensures Flatten(parts + [part]) == Flatten(parts) + part
  {
    if parts == [] {
      assert ([] + [part])[1..] == [];
    } else {
      assert (parts + [part])[1..] == parts[1..] + [part];
      FlattenSnoc(parts[1..], part);
    }
  }

  lemma WrittenNext(job: Job, i: nat)
    requires 0 < i <= |job.chunks|
    ensures Written(job, i + 1) == Written(job, i) + job.chunks[i - 1]
  {
    assert job.chunks[..i] == job.chunks[..i - 1] + [job.chunks[i - 1]];
    FlattenSnoc(job.chunks[..i - 1], job.chunks[i - 1]);
  }

  lemma ApartHasNoNewLinks(t: Tree, jobs: seq<Job>, targets: seq<Path>, s: State)
    requires Fit(jobs, s) && |targets| == |jobs| && Apart(t, jobs, targets, s)
    ensures NoNewLinks(t, s.tree)
  {
    hide Written;
    forall p | p in s.tree && s.tree[p].Link? ensures p in t {
      assert Untouched(targets, s.done, p);
    }
  }

  lemma AdvanceOpens(place: Place, t: Tree, jobs: seq<Job>, targets: seq<Path>, top: Path, s: State, k: nat)
    requires DistinctTargets(place, t, jobs, targets, top)
    requires Fit(jobs, s) && Apart(t, jobs, targets, s) && k < |jobs| && s.done[k] == 0
    requires WellFormed(s.tree) && Extends(t, s.tree)
    ensures PutTarget(place, s.tree, jobs[k].path) == Some(targets[k])
    ensures var r := Advance(place, jobs, s, k);
            WellFormed(r.tree) && Extends(t, r.tree) && Apart(t, jobs, targets, r)
  {
    hide PutTarget, FullPath, RootPath, WellFormed, OwnContents, Locate, ValidName, Clean, NoNewLinks;
    var p := targets[k];
    ApartHasNoNewLinks(t, jobs, targets, s);
    PutTargetSound(place, t, jobs[k].path, p);
    assert Untouched(targets, s.done, p);
    assert p in s.tree <==> p in t;
    hide Apart;
    PutTargetStable(place, t, s.tree, jobs[k].path, top, p);
    assert SameKind(t[Up(p)], s.tree[Up(p)]);
    AddedNode(s.tree, p, File([]));
    Extended(t, s.tree, p, File([]));
    OpenedApart(t, jobs, targets, s, Advance(place, jobs, s, k), k);
  }

  lemma Extended(t: Tree, u: Tree, p: Path, node: Node)
    requires Extends(t, u) && (p in t ==> SameKind(t[p], node))
    ensures Extends(t, u[p := node])
  {
  }

  lemma OpenedApart(t: Tree, jobs: seq<Job>, targets: seq<Path>, s: State, r: State, k: nat)
    requires Fit(jobs, s) && Fit(jobs, r) && |targets| == |jobs| && Apart(t, jobs, targets, s) && k < |jobs|
    requires forall i, j :: 0 <= i < j < |jobs| ==> targets[i] != targets[j]
    requires s.done[k] == 0
    requires r == State(s.tree[targets[k] := File([])], s.done[k := 1], s.handles[k := Some(targets[k])])
    ensures Apart(t, jobs, targets, r)
  {
    assert Written(jobs[k], 1) == [];
    hide Written, OthersKept;
    OthersStayKept(t, targets, s.done, r.done, s.tree, k, File([]));
  }

  lemma OthersStayKept(t: Tree, targets: seq<Path>, done: seq<nat>, later: seq<nat>, u: Tree, k: nat, node: Node)
    requires |targets| == |done| && OthersKept(t, targets, done, u)
    requires k < |done| && later == done[k := done[k] + 1]
    ensures OthersKept(t, targets, later, u[targets[k] := node])
  {
    forall p | Untouched(targets, later, p) ensures Untouched(targets, done, p) && targets[k] != p {
      assert later[k] > 0;
      forall j | 0 <= j < |done| && done[j] > 0 ensures targets[j] != p {
        assert later[j] > 0;
      }
    }
  }

  lemma AdvanceWrites(place: Place, t: Tree, jobs: seq<Job>, targets: seq<Path>, top: Path, s: State, k: nat)
    requires DistinctTargets(place, t, jobs, targets, top)
    requires Fit(jobs, s) && Apart(t, jobs, targets, s) && k < |jobs| && s.done[k] > 0
    requires WellFormed(s.tree) && Extends(t, s.tree)
    ensures var r := Advance(place, jobs, s, k);
            WellFormed(r.tree) && Extends(t, r.tree) && Apart(t, jobs, targets, r)
  {
    hide PutTarget, FullPath, RootPath, WellFormed, Written, OthersKept, Locate, ValidName;
    var i, p := s.done[k], targets[k];
    var r := Advance(place, jobs, s, k);
    if i <= |jobs[k].chunks| {
      WrittenNext(jobs[k], i);
      PutTargetSound(place, t, jobs[k].path, p);
      assert SameKind(t[Up(p)], s.tree[Up(p)]);
      AddedNode(s.tree, p, r.tree[p]);
      Extended(t, s.tree, p, r.tree[p]);
      GrownApart(t, jobs, targets, s, r, k);
    } else if i == |jobs[k].chunks| + 1 {
      WrittenAll(jobs[k], i);
      GrownApart(t, jobs, targets, s, r, k);
    }
  }

  lemma WrittenAll(job: Job, i: nat)
    requires i > |job.chunks|
    ensures Written(job, i) == Flatten(job.chunks) && Written(job, i + 1) == Flatten(job.chunks)
  {
    assert job.chunks[..|job.chunks|] == job.chunks;
  }

  lemma GrownApart(t: Tree, jobs: seq<Job>, targets: seq<Path>, s: State, r: State, k: nat)
    requires Fit(jobs, s) && Fit(jobs, r) && |targets| == |jobs| && Apart(t, jobs, targets, s) && k < |jobs|
    requires forall i, j :: 0 <= i < j < |jobs| ==> targets[i] != targets[j]
    requires s.done[k] > 0 && r.done == s.done[k := s.done[k] + 1]
    requires r.handles == s.handles || (s.done[k] > |jobs[k].chunks| && r.handles == s.handles[k := None])
    requires r.tree == s.tree[targets[k] := File(Written(jobs[k], s.done[k] + 1))]
    ensures Apart(t, jobs, targets, r)
  {
    hide Written, OthersKept;
    OthersStayKept(t, targets, s.done, r.done, s.tree, k, r.tree[targets[k]]);
  }

  /** Whatever the schedule, the jobs stay apart and each moves at its own pace. */
  lemma {:induction false} PlayStaysApart(place: Place, t: Tree, jobs: seq<Job>, targets: seq<Path>, top: Path,
                                          s: State, schedule: seq<nat>)
    requires DistinctTargets(place, t, jobs, targets, top)
    requires Fit(jobs, s) && Apart(t, jobs, targets, s) && WellFormed(s.tree) && Extends(t, s.tree)
    requires forall i :: 0 <= i < |schedule| ==> schedule[i] < |jobs|
    requires forall k :: 0 <= k < |jobs| ==> s.done[k] + Turns(schedule, k) <= Steps(jobs[k])
    ensures var r := Play(place, jobs, s, schedule);
            && Apart(t, jobs, targets, r)
            && forall k :: 0 <= k < |jobs| ==> r.done[k] == s.done[k] + Turns(schedule, k)
    decreases |schedule|
  {
    hide DistinctTargets, Apart, WellFormed, Extends, PutTarget;
    if schedule != [] {
      var k := schedule[0];
      if s.done[k] == 0 {
        AdvanceOpens(place, t, jobs, targets, top, s, k);
      } else {
        AdvanceWrites(place, t, jobs, targets, top, s, k);
      }
      var r := Advance(place, jobs, s, k);
      assert r.done == s.done[k := s.done[k] + 1] by {
        assert Turns(schedule, k) == 1 + Turns(schedule[1..], k);
      }
      PlayStaysApart(place, t, jobs, targets, top, r, schedule[1..]);
    }
  }

  /** In the end every target holds its own job's data and all else is as it was. */
  ghost predicate AllStored(t: Tree, jobs: seq<Job>, targets: seq<Path>, u: Tree)
    requires |targets| == |jobs|
  {
    && (forall k :: 0 <= k < |jobs| ==> targets[k] in u && u[targets[k]] == File(Flatten(jobs[k].chunks)))
    && (forall p :: p !in targets ==> (p in u <==> p in t) && (p in t ==> u[p] == t[p]))
  }

  lemma CompleteStoresAll(place: Place, t: Tree, jobs: seq<Job>, targets: seq<Path>, top: Path, schedule: seq<nat>)
    requires DistinctTargets(place, t, jobs, targets, top) && Complete(jobs, schedule)
    ensures AllStored(t, jobs, targets, Play(place, jobs, Start(t, jobs), schedule).tree)
  {
    hide PutTarget, FullPath, RootPath, Play, Flatten;
    PlayStaysApart(place, t, jobs, targets, top, Start(t, jobs), schedule);
    var r := Play(place, jobs, Start(t, jobs), schedule);
    forall k | 0 <= k < |jobs| ensures Written(jobs[k], r.done[k]) == Flatten(jobs[k].chunks) {
      WrittenAll(jobs[k], |jobs[k].chunks| + 1);
    }
    forall p | p !in targets ensures Untouched(targets, r.done, p) {
    }
  }

  lemma StoredDetermines(t: Tree, jobs: seq<Job>, targets: seq<Path>, u: Tree, v: Tree)
    requires |targets| == |jobs| && AllStored(t, jobs, targets, u) && AllStored(t, jobs, targets, v)
    ensures u == v
  {
    forall p ensures (p in u <==> p in v) && (p in u ==> u[p] == v[p]) {
      if p in targets {
        var k :| 0 <= k < |targets| && targets[k] == p;
      }
    }
    assert u.Keys == v.Keys;
  }

  /** Any two complete interleavings of PUTs on distinct targets leave the same tree. */
  lemma InterleavingsAgree(place: Place, t: Tree, jobs: seq<Job>, targets: seq<Path>, top: Path,
                           schedule: seq<nat>, other: seq<nat>)
    requires DistinctTargets(place, t, jobs, targets, top)
    requires Complete(jobs, schedule) && Complete(jobs, other)
    ensures Play(place, jobs, Start(t, jobs), schedule).tree == Play(place, jobs, Start(t, jobs), other).tree
  {
    hide Play, AllStored, PutTarget, FullPath, RootPath, WellFormed;
    CompleteStoresAll(place, t, jobs, targets, top, schedule);
    CompleteStoresAll(place, t, jobs, targets, top, other);
    StoredDetermines(t, jobs, targets,
                     Play(place, jobs, Start(t, jobs), schedule).tree, Play(place, jobs, Start(t, jobs), other).tree);
  }

  // One after another

  /** The jobs one after another, in the given order. */
  function InOrder(jobs: seq<Job>, order: seq<nat>): (schedule: seq<nat>)
    requires forall i :: 0 <= i < |order| ==> order[i] < |jobs|
    ensures forall i :: 0 <= i < |schedule| ==> schedule[i] < |jobs|
  {
    if order == [] then [] else seq(Steps(jobs[order[0]]), _ => order[0]) + InOrder(jobs, order[1..])
  }

  lemma {:induction false} TurnsAppend(a: seq<nat>, b: seq<nat>, k: nat)
    ensures Turns(a + b, k) == Turns(a, k) + Turns(b, k)
  {
    if a == [] {
      assert a + b == b;
    } else {
      assert (a + b)[1..] == a[1..] + b;
      TurnsAppend(a[1..], b, k);
    }
  }

  lemma {:induction false} TurnsOfOne(n: nat, j: nat, k: nat)
    ensures Turns(seq(n, _ => j), k) == if j == k then n else 0
  {
    if n > 0 {
      assert seq(n, _ => j)[1..] == seq(n - 1, _ => j);
      TurnsOfOne(n - 1, j, k);
    }
  }

  lemma {:induction false} InOrderTurns(jobs: seq<Job>, order: seq<nat>, k: nat)
    requires k < |jobs| && forall i :: 0 <= i < |order| ==> order[i] < |jobs|
    requires Turns(order, k) <= 1
    ensures Turns(InOrder(jobs, order), k) == if Turns(order, k) == 1 then Steps(jobs[k]) else 0
  {
    if order != [] {
      InOrderTurns(jobs, order[1..], k);
      var first := seq(Steps(jobs[order[0]]), _ => order[0]);
      TurnsAppend(first, InOrder(jobs, order[1..]), k);
      TurnsOfOne(Steps(jobs[order[0]]), order[0], k);
    }
  }

  /** Every complete interleaving ends like the jobs run one after another, in
      whatever order. */
  lemma InterleavingIsSerial(place: Place, t: Tree, jobs: seq<Job>, targets: seq<Path>, top: Path,
                             schedule: seq<nat>, order: seq<nat>)
    requires DistinctTargets(place, t, jobs, targets, top) && Complete(jobs, schedule)
    requires forall i :: 0 <= i < |order| ==> order[i] < |jobs|
    requires forall k :: 0 <= k < |jobs| ==> Turns(order, k) == 1
    ensures Play(place, jobs, Start(t, jobs), schedule).tree ==
            Play(place, jobs, Start(t, jobs), InOrder(jobs, order)).tree
  {
    hide DistinctTargets, Play, InOrder, Turns;
    forall k | 0 <= k < |jobs| ensures Turns(InOrder(jobs, order), k) == Steps(jobs[k]) {
      InOrderTurns(jobs, order, k);
    }
    InterleavingsAgree(place, t, jobs, targets, top, schedule, InOrder(jobs, order));
  }
}
