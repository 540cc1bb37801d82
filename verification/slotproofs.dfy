/** Every run of the server keeps the client table, its roles and its
    descriptors in order. */
module SlotProofs {
  import opened CBytes
  import opened Paths
  import opened Resolve
  import opened Files
  import opened Users
  import opened Requests
  import opened Slots

  // Main's steps

  lemma MainKeepsMutex(env: Env, s: Sys, step: Step)
    requires Inv(env, s) && !IsWorkerStep(step)
    ensures MutexOk(MainStep(s, step))
  {
    hide RolesOk, TableOk, DescriptorsOk, Shape, FirstFree;
  }

  lemma MainKeepsRoles(env: Env, s: Sys, step: Step)
    requires Inv(env, s) && !IsWorkerStep(step)
    ensures RolesOk(env, MainStep(s, step))
  {
    hide MutexOk, DescriptorsOk, Occupied, MayWrite, FirstFree;
  }

  lemma CheckKeepsTable(s: Sys)
    requires Shape(s) && TableOk(s) && s.main.Checking?
    ensures TableOk(MainStep(s, Check))
  {
    hide Occupied, FirstFree;
    var i := FirstFree(s.fds);
    if i < MAX_CLIENTS {
      OccupiedUpdate(s.fds, i, s.main.fd);
    }
  }

  lemma SpawnKeepsTable(env: Env, s: Sys, ok: bool)
    requires Inv(env, s) && s.main.Stored?
    ensures TableOk(MainStep(s, Spawn(ok)))
  {
    hide Occupied, MutexOk, DescriptorsOk, Fold, MayWrite;
    OccupiedUpdate(s.fds, s.main.slot, -1);
  }

  lemma MainKeepsTable(env: Env, s: Sys, step: Step)
    requires Inv(env, s) && !IsWorkerStep(step)
    ensures !ShuttingDown(MainStep(s, step).main) ==> TableOk(MainStep(s, step))
  {
    hide MutexOk, DescriptorsOk, RolesOk, Occupied, FirstFree;
    if step.Check? && s.main.Checking? {
      CheckKeepsTable(s);
    } else if step.Spawn? && s.main.Stored? {
      SpawnKeepsTable(env, s, step.ok);
    }
  }

  lemma ClosedOnce(s: Sys, r: Sys, fd: int, i: nat)
    requires Shape(s) && DescriptorsOk(s) && 0 <= fd < |s.closes| && i < MAX_CLIENTS
    requires s.fds[i] == fd && !Pending(s.main, fd)
    requires r.closes == s.closes[fd := s.closes[fd] + 1] && r.fds == s.fds[i := -1]
    requires forall x :: Pending(r.main, x) <==> Pending(s.main, x)
    ensures DescriptorsOk(r)
  {
    forall x | 0 <= x < |r.closes|
      ensures r.closes[x] + Holds(r.fds, x) + (if Pending(r.main, x) then 1 else 0) == 1
    {
      HoldsUpdate(s.fds, i, -1, x);
    }
  }

  lemma StoredOnce(s: Sys, r: Sys, fd: int, i: nat)
    requires Shape(s) && DescriptorsOk(s) && i < MAX_CLIENTS && s.fds[i] == -1
    requires s.main.Checking? && s.main.fd == fd
    requires r.closes == s.closes && r.fds == s.fds[i := fd] && r.main.Stored?
    ensures DescriptorsOk(r)
  {
    forall x | 0 <= x < |r.closes|
      ensures r.closes[x] + Holds(r.fds, x) + (if Pending(r.main, x) then 1 else 0) == 1
    {
      HoldsUpdate(s.fds, i, fd, x);
    }
  }

  /** A descriptor in a slot is not also waiting to be stored. */
  lemma HeldIsNotPending(s: Sys, i: nat)
    requires Shape(s) && DescriptorsOk(s) && i < MAX_CLIENTS && s.fds[i] >= 0
    ensures !Pending(s.main, s.fds[i])
  {
    HoldsSome(s.fds, i, s.fds[i]);
  }

  lemma MainKeepsDescriptors(env: Env, s: Sys, step: Step)
    requires Inv(env, s) && !IsWorkerStep(step)
    ensures DescriptorsOk(MainStep(s, step))
  {
    hide MutexOk, RolesOk, HasWorker, FirstFree, Holds;
    var r := MainStep(s, step);
    match step {
      case Accept =>
        HoldsNone(s.fds, |s.closes|);
      case Check =>
        if s.main.Checking? && s.numClients < MAX_CLIENTS {
          FreeSlotExists(s.fds);
          StoredOnce(s, r, s.main.fd, FirstFree(s.fds));
        }
      case Spawn(ok) =>
        if s.main.Stored? && !ok {
          ClosedOnce(s, r, s.main.fd, s.main.slot);
        }
      case Scan =>
        if s.main.Scanning? && s.main.slot < MAX_CLIENTS && s.fds[s.main.slot] >= 0 {
          ClosedOnce(s, r, s.fds[s.main.slot], s.main.slot);
        }
      case _ =>
    }
  }

  // Workers' steps

  lemma WorkerKeepsMutex(env: Env, s: Sys, step: Step)
    requires Inv(env, s) && IsWorkerStep(step) && step.w < |s.workers|
    ensures MutexOk(WorkerStep(env, s, step))
  {
    hide RolesOk, TableOk, DescriptorsOk, Shape, Exec, PutTarget;
  }

  /** What serving a request does to the fold. */
  lemma FoldFollows(env: Env, t: Tree, log: seq<Request>, req: Request)
    ensures Exec(env, t, Fold(env, log), req).role == Fold(env, log + [req])
    ensures PutOpens(env, t, Fold(env, log), req).Some? ==>
              Fold(env, log + [req]) == Fold(env, log) && MayWrite(Fold(env, log))
  {
    hide Exec, Login, PutTarget;
    assert (log + [req])[..|log|] == log;
    RoleFollowsSession(env, t, Fold(env, log), req);
  }

  lemma WorkerKeepsRoles(env: Env, s: Sys, step: Step)
    requires Inv(env, s) && IsWorkerStep(step) && step.w < |s.workers|
    ensures RolesOk(env, WorkerStep(env, s, step))
  {
    hide MutexOk, DescriptorsOk, HasWorker, Occupied, Exec, PutOpens, Fold, MayWrite, TableOk;
    var r := WorkerStep(env, s, step);
    var w, me := step.w, s.workers[step.w];
    if (step.Serve? || step.PutOpen?) && me.pc.Serving? {
      FoldFollows(env, s.tree, me.log, step.req);
      ServedRole(env, s, step);
    } else {
      OneWorkerMoved(env, s, r, w);
    }
  }

  lemma ServedRole(env: Env, s: Sys, step: Step)
    requires Inv(env, s) && (step.Serve? || step.PutOpen?) && step.w < |s.workers| && s.workers[step.w].pc.Serving?
    requires Exec(env, s.tree, Fold(env, s.workers[step.w].log), step.req).role ==
             Fold(env, s.workers[step.w].log + [step.req])
    requires PutOpens(env, s.tree, Fold(env, s.workers[step.w].log), step.req).Some? ==>
               Fold(env, s.workers[step.w].log + [step.req]) == Fold(env, s.workers[step.w].log) &&
               MayWrite(Fold(env, s.workers[step.w].log))
    ensures RolesOk(env, WorkerStep(env, s, step))
  {
    hide MutexOk, DescriptorsOk, HasWorker, Occupied, Exec, PutOpens, Fold, MayWrite, TableOk;
    OneWorkerMoved(env, s, WorkerStep(env, s, step), step.w);
  }

  /** A step that changes one worker, and no role but that of its slot. */
  lemma OneWorkerMoved(env: Env, s: Sys, r: Sys, w: nat)
    requires Inv(env, s) && Shape(r) && w < |s.workers| == |r.workers|
    requires r.threads == s.threads && r.main == s.main
    requires forall v :: 0 <= v < |s.workers| && v != w ==> r.workers[v] == s.workers[v]
    requires r.workers[w].slot == s.workers[w].slot && (Live(r.workers[w].pc) ==> Live(s.workers[w].pc))
    requires r.roles == s.roles[s.workers[w].slot := r.roles[s.workers[w].slot]]
    requires r.roles != s.roles ==> Live(s.workers[w].pc)
    requires Live(r.workers[w].pc) ==> r.roles[r.workers[w].slot] == Fold(env, r.workers[w].log)
    requires r.workers[w].pc.Putting? ==> MayWrite(Fold(env, r.workers[w].log))
    ensures RolesOk(env, r)
  {
    hide MutexOk, DescriptorsOk, HasWorker, Occupied, Fold, MayWrite;
    forall v | 0 <= v < |r.workers| && v != w && Live(r.workers[v].pc)
      ensures r.threads[r.workers[v].slot] == v && r.roles[r.workers[v].slot] == Fold(env, r.workers[v].log)
    {
      assert Live(s.workers[v].pc) && s.threads[s.workers[v].slot] == v;
    }
  }

  lemma WorkerKeepsTable(env: Env, s: Sys, step: Step)
    requires Inv(env, s) && IsWorkerStep(step) && step.w < |s.workers| && !ShuttingDown(s.main)
    ensures TableOk(WorkerStep(env, s, step))
  {
    hide DescriptorsOk, Exec, PutOpens, Fold, MayWrite, Occupied, RolesOk, MutexOk, HasWorker;
    if step.Cleanup? {
      CleanupKeepsTable(env, s, step);
    } else {
      SameTable(s, WorkerStep(env, s, step), step.w);
    }
  }

  /** A step that moves one worker without running its cleanup keeps the table. */
  lemma SameTable(s: Sys, r: Sys, w: nat)
    requires Shape(s) && Shape(r) && TableOk(s) && w < |s.workers| == |r.workers|
    requires r.fds == s.fds && r.threads == s.threads && r.main == s.main && r.numClients == s.numClients
    requires forall v :: 0 <= v < |s.workers| && v != w ==> r.workers[v] == s.workers[v]
    requires r.workers[w].slot == s.workers[w].slot && (Live(r.workers[w].pc) <==> Live(s.workers[w].pc))
    ensures TableOk(r)
  {
    hide Occupied;
    forall i | 0 <= i < MAX_CLIENTS && HasWorker(s, i) ensures HasWorker(r, i) {
      assert s.threads[i] != w ==> r.workers[s.threads[i]] == s.workers[s.threads[i]];
    }
  }

  lemma CleanupKeepsTable(env: Env, s: Sys, step: Step)
    requires Inv(env, s) && step.Cleanup? && step.w < |s.workers| && !ShuttingDown(s.main)
    ensures TableOk(WorkerStep(env, s, step))
  {
    hide DescriptorsOk, Exec, PutOpens, Fold, MayWrite, Occupied;
    var me := s.workers[step.w];
    if me.pc.Cleaning? {
      OccupiedUpdate(s.fds, me.slot, -1);
      assert s.threads[me.slot] == step.w;
      assert s.holder == Worker(step.w);
    }
  }

  lemma WorkerKeepsDescriptors(env: Env, s: Sys, step: Step)
    requires Inv(env, s) && IsWorkerStep(step) && step.w < |s.workers|
    ensures DescriptorsOk(WorkerStep(env, s, step))
  {
    hide MutexOk, RolesOk, TableOk, Exec, PutOpens, Holds;
    var me := s.workers[step.w];
    if step.Cleanup? && me.pc.Cleaning? && s.fds[me.slot] >= 0 {
      HeldIsNotPending(s, me.slot);
      ClosedOnce(s, WorkerStep(env, s, step), s.fds[me.slot], me.slot);
    }
  }

  lemma WorkerLeavesMain(env: Env, s: Sys, step: Step)
    requires Shape(s) && IsWorkerStep(step) && step.w < |s.workers|
    ensures WorkerStep(env, s, step).main == s.main
  {
    hide Exec, PutOpens, Shape;
  }

  // Runs

  lemma StepKeepsInv(env: Env, s: Sys, step: Step)
    requires Inv(env, s)
    ensures Inv(env, Do(env, s, step))
  {
    hide MutexOk, RolesOk, TableOk, DescriptorsOk, Shape, MainStep, WorkerStep;
    if !IsWorkerStep(step) {
      MainKeepsMutex(env, s, step);
      MainKeepsRoles(env, s, step);
      MainKeepsTable(env, s, step);
      MainKeepsDescriptors(env, s, step);
    } else if step.w < |s.workers| {
      WorkerLeavesMain(env, s, step);
      WorkerKeepsMutex(env, s, step);
      WorkerKeepsRoles(env, s, step);
      if !ShuttingDown(s.main) {
        WorkerKeepsTable(env, s, step);
      }
      WorkerKeepsDescriptors(env, s, step);
    }
  }

  lemma {:induction false} OccupiedNone(n: nat)
    ensures Occupied(seq(n, _ => -1)) == 0
  {
    if n > 0 {
      assert seq(n, _ => -1)[1..] == seq(n - 1, _ => -1);
      OccupiedNone(n - 1);
    }
  }

  lemma InitialInv(env: Env, tree: Tree)
    ensures Inv(env, Initial(tree))
  {
    hide Occupied;
    OccupiedNone(MAX_CLIENTS);
  }

  lemma {:induction false} RunKeepsInv(env: Env, s: Sys, steps: seq<Step>)
    requires Inv(env, s)
    ensures Inv(env, Run(env, s, steps))
    decreases |steps|
  {
    hide MutexOk, RolesOk, TableOk, DescriptorsOk, Do;
    if steps != [] {
      StepKeepsInv(env, s, steps[0]);
      RunKeepsInv(env, Do(env, s, steps[0]), steps[1..]);
    }
  }

  // What holds in every reachable state

  /** Whenever clients_mutex is free before shutdown, numClients counts the
      occupied slots, each of them has exactly one worker that has not cleaned
      up, and every such worker has its slot. */
  lemma TableWhenFree(env: Env, tree: Tree, steps: seq<Step>)
    ensures var s := Run(env, Initial(tree), steps);
            s.holder.Nobody? && !ShuttingDown(s.main) ==>
              && s.numClients == Occupied(s.fds)
              && (forall i :: 0 <= i < MAX_CLIENTS && s.fds[i] >= 0 ==>
                    HasWorker(s, i) &&
                    forall w :: 0 <= w < |s.workers| && Live(s.workers[w].pc) && s.workers[w].slot == i ==>
                      w == s.threads[i])
              && (forall w :: 0 <= w < |s.workers| && Live(s.workers[w].pc) ==> s.fds[s.workers[w].slot] >= 0)
  {
    hide Occupied, Run, Fold, MayWrite, DescriptorsOk;
    InitialInv(env, tree);
    RunKeepsInv(env, Initial(tree), steps);
  }

  /** A connection that is let in finds a free slot. */
  lemma AcceptFindsSlot(env: Env, tree: Tree, steps: seq<Step>)
    ensures var s := Run(env, Initial(tree), steps);
            s.main.Checking? && s.numClients < MAX_CLIENTS ==>
              FirstFree(s.fds) < MAX_CLIENTS && Do(env, s, Check).main == Stored(s.main.fd, FirstFree(s.fds))
  {
    hide Run, Fold, MayWrite, DescriptorsOk, MutexOk, RolesOk, HasWorker;
    InitialInv(env, tree);
    RunKeepsInv(env, Initial(tree), steps);
    var s := Run(env, Initial(tree), steps);
    if s.main.Checking? && s.numClients < MAX_CLIENTS {
      FreeSlotExists(s.fds);
    }
  }

  /** A connection is let in exactly when one of the 100 slots is free; it gets the
      first such slot, as a guest, and otherwise its descriptor is closed. */
  lemma AdmittedExactly(env: Env, tree: Tree, steps: seq<Step>)
    requires Run(env, Initial(tree), steps).main.Checking?
    ensures var s := Run(env, Initial(tree), steps);
            var r := Do(env, s, Check);
            && |s.fds| == 100 && s.main.fd < |s.closes|
            && if exists i :: 0 <= i < 100 && s.fds[i] == -1 then
                 && r.main.Stored? && s.fds[r.main.slot] == -1 && (forall i :: 0 <= i < r.main.slot ==> s.fds[i] != -1)
                 && r.fds == s.fds[r.main.slot := s.main.fd] && r.roles == s.roles[r.main.slot := 0]
                 && r.closes == s.closes
               else
                 r.main.Releasing? && r.fds == s.fds && r.closes == s.closes[s.main.fd := s.closes[s.main.fd] + 1]
  {
    hide Run, Fold, MayWrite, DescriptorsOk, MutexOk, RolesOk, HasWorker, WorkerStep;
    InitialInv(env, tree);
    RunKeepsInv(env, Initial(tree), steps);
    var s := Run(env, Initial(tree), steps);
    if s.numClients < MAX_CLIENTS {
      FreeSlotExists(s.fds);
    } else {
      forall i | 0 <= i < MAX_CLIENTS ensures s.fds[i] != -1 {
        FullTable(s.fds, i);
      }
    }
  }

  /** Also during and after shutdown: a descriptor is pending, in one slot, or
      closed once. */
  lemma DescriptorsAccounted(env: Env, tree: Tree, steps: seq<Step>, fd: nat)
    requires fd < |Run(env, Initial(tree), steps).closes|
    ensures var s := Run(env, Initial(tree), steps);
            s.closes[fd] + Holds(s.fds, fd) + (if Pending(s.main, fd) then 1 else 0) == 1
  {
    hide Run, Fold, MayWrite, MutexOk, RolesOk, TableOk;
    InitialInv(env, tree);
    RunKeepsInv(env, Initial(tree), steps);
  }

  /** In every reachable state a change of the tree is a PUT, DELETE or MKDIR of
      a worker whose connection's own requests make it a user or administrator. */
  lemma ChangesAreAuthorized(env: Env, tree: Tree, steps: seq<Step>, step: Step)
    ensures var s := Run(env, Initial(tree), steps);
            Do(env, s, step).tree != s.tree ==>
              && (step.Serve? || step.PutOpen? || step.PutChunk?) && step.w < |s.workers|
              && MayWrite(Fold(env, s.workers[step.w].log))
              && (step.Serve? ==> step.req.cmd == CMD_DELETE || step.req.cmd == CMD_MKDIR)
              && (step.PutOpen? ==> step.req.cmd == CMD_PUT)
  {
    hide Run, TableOk, MutexOk, DescriptorsOk, Shape, RolesOk, Do, Fold, MayWrite;
    InitialInv(env, tree);
    RunKeepsInv(env, Initial(tree), steps);
    ChangeOfStep(env, Run(env, Initial(tree), steps), step);
  }

  lemma MainLeavesTree(s: Sys, step: Step)
    requires Shape(s)
    ensures MainStep(s, step).tree == s.tree
  {
    hide Shape, FirstFree;
  }

  lemma ChangeOfStep(env: Env, s: Sys, step: Step)
    requires Inv(env, s)
    ensures Do(env, s, step).tree != s.tree ==>
              && (step.Serve? || step.PutOpen? || step.PutChunk?) && step.w < |s.workers|
              && MayWrite(Fold(env, s.workers[step.w].log))
              && (step.Serve? ==> step.req.cmd == CMD_DELETE || step.req.cmd == CMD_MKDIR)
              && (step.PutOpen? ==> step.req.cmd == CMD_PUT)
  {
    hide TableOk, MutexOk, DescriptorsOk, RolesOk, MainStep, WorkerStep, Fold, MayWrite;
    if !IsWorkerStep(step) {
      MainLeavesTree(s, step);
    } else if step.w < |s.workers| {
      ChangeOfWorker(env, s, step);
    }
  }

  lemma ChangeOfWorker(env: Env, s: Sys, step: Step)
    requires Inv(env, s) && IsWorkerStep(step) && step.w < |s.workers|
    ensures WorkerStep(env, s, step).tree != s.tree ==>
              && (step.Serve? || step.PutOpen? || step.PutChunk?)
              && MayWrite(Fold(env, s.workers[step.w].log))
              && (step.Serve? ==> step.req.cmd == CMD_DELETE || step.req.cmd == CMD_MKDIR)
              && (step.PutOpen? ==> step.req.cmd == CMD_PUT)
  {
    hide TableOk, MutexOk, DescriptorsOk, Exec, PutTarget, Fold, Occupied, HasWorker;
    if step.Serve? && PutOpens(env, s.tree, s.roles[s.workers[step.w].slot], step.req).None? {
      ServedChange(env, s.tree, s.roles[s.workers[step.w].slot], step.req);
    }
  }

  lemma ServedChange(env: Env, t: Tree, role: int, req: Request)
    requires PutOpens(env, t, role, req).None?
    ensures Exec(env, t, role, req).tree != t ==>
              MayWrite(role) && (req.cmd == CMD_DELETE || req.cmd == CMD_MKDIR)
  {
    hide FullPath, PutTarget, Say, DeleteFile, CreateDirectory, GetReply, Listing, FileInfo, Login, BaseName;
    OnlyWritersChangeTree(env, t, role, req);
  }

  /** In every reachable state a slot's role is the fold of the requests that its
      current connection was served, and of nothing else. */
  lemma RoleIsFoldOfOwnRequests(env: Env, tree: Tree, steps: seq<Step>, w: nat)
    ensures var s := Run(env, Initial(tree), steps);
            w < |s.workers| && Live(s.workers[w].pc) ==>
              s.roles[s.workers[w].slot] == Fold(env, s.workers[w].log)
  {
    hide Run, TableOk, MutexOk, DescriptorsOk, Fold, MayWrite;
    InitialInv(env, tree);
    RunKeepsInv(env, Initial(tree), steps);
  }

  /** A slot's role changes only by its own worker, or when a new connection is
      stored in it. */
  lemma RolesAreIsolated(env: Env, tree: Tree, steps: seq<Step>, step: Step, i: nat)
    requires i < MAX_CLIENTS
    ensures var s := Run(env, Initial(tree), steps);
            Do(env, s, step).roles[i] != s.roles[i] ==>
              if IsWorkerStep(step) then
                step.w < |s.workers| && s.workers[step.w].slot == i && s.threads[i] == step.w
              else
                && Do(env, s, step).main == Stored(s.main.fd, i)
                && Do(env, s, step).roles[i] == ROLE_GUEST && s.fds[i] == -1
  {
    hide Run, TableOk, MutexOk, DescriptorsOk, Exec, PutOpens, Fold, MayWrite;
    InitialInv(env, tree);
    RunKeepsInv(env, Initial(tree), steps);
  }

  // Authentication switched off

  /** All sessions are guests and no file is open for writing. */
  ghost predicate Quiet(s: Sys)
    requires Shape(s)
  {
    && (forall i :: 0 <= i < MAX_CLIENTS ==> s.roles[i] == ROLE_GUEST)
    && (forall w :: 0 <= w < |s.workers| ==> !s.workers[w].pc.Putting?)
  }

  lemma MainStaysQuiet(s: Sys, step: Step)
    requires Shape(s) && Quiet(s)
    ensures Quiet(MainStep(s, step)) && MainStep(s, step).tree == s.tree
  {
    hide FirstFree;
  }

  lemma WorkerStaysQuiet(env: Env, s: Sys, step: Step)
    requires Shape(s) && Quiet(s) && env.users == [] && IsWorkerStep(step) && step.w < |s.workers|
    ensures Quiet(WorkerStep(env, s, step)) && WorkerStep(env, s, step).tree == s.tree
  {
    hide Exec, PutOpens;
    if step.Serve? || step.PutOpen? {
      NoUsersNoWrites(env, s.tree, step.req);
    }
  }

  lemma StepStaysQuiet(env: Env, s: Sys, step: Step)
    requires Shape(s) && Quiet(s) && env.users == []
    ensures Quiet(Do(env, s, step)) && Do(env, s, step).tree == s.tree
  {
    hide Quiet, MainStep, WorkerStep;
    if !IsWorkerStep(step) {
      MainStaysQuiet(s, step);
    } else if step.w < |s.workers| {
      WorkerStaysQuiet(env, s, step);
    }
  }

  lemma {:induction false} RunStaysQuiet(env: Env, s: Sys, steps: seq<Step>)
    requires Shape(s) && Quiet(s) && env.users == []
    ensures Quiet(Run(env, s, steps)) && Run(env, s, steps).tree == s.tree
    decreases |steps|
  {
    hide Do, Quiet;
    if steps != [] {
      StepStaysQuiet(env, s, steps[0]);
      RunStaysQuiet(env, Do(env, s, steps[0]), steps[1..]);
    }
  }

  /** The user table after init_server: the file is read only when
      authentication is on. */
  function BootUsers(enableAuth: bool, file: Bytes): seq<User> {
    if enableAuth then LoadFrom(file, 0) else []
  }

  /** With authentication off no request on any connection changes the served
      tree and nobody ever is more than a guest. */
  lemma AuthOffIsReadOnly(env: Env, tree: Tree, file: Bytes, steps: seq<Step>)
    requires !env.enableAuth && env.users == BootUsers(env.enableAuth, file)
    ensures var s := Run(env, Initial(tree), steps);
            s.tree == tree && forall i :: 0 <= i < MAX_CLIENTS ==> s.roles[i] == ROLE_GUEST
  {
    hide Run;
    RunStaysQuiet(env, Initial(tree), steps);
  }

  // Shutdown

  predicate NeedsMutex(pc: WorkerPc) {
    pc.Starting? || pc.Serving? || pc.Putting? || pc.Wanting?
  }

  ghost predicate Waits(s: Sys, i: nat)
    requires Shape(s) && i < MAX_CLIENTS
  {
    s.threads[i] < |s.workers| && NeedsMutex(s.workers[s.threads[i]].pc)
  }

  ghost predicate AllWait(s: Sys, k: nat)
    requires Shape(s)
  {
    forall i :: k <= i < MAX_CLIENTS && s.fds[i] >= 0 ==> Waits(s, i)
  }

  /** shutdown_server holds the mutex and is in, or on its way to, a join on a
      worker that still needs the mutex. */
  ghost predicate Stuck(s: Sys)
    requires Shape(s)
  {
    || (s.main.Joining? && Waits(s, s.main.slot))
    || (s.main.Scanning? && AllWait(s, s.main.slot) && exists i :: s.main.slot <= i < MAX_CLIENTS && s.fds[i] >= 0)
  }

  lemma WorkerCannotHelp(env: Env, s: Sys, step: Step)
    requires Inv(env, s) && s.holder.Main? && IsWorkerStep(step) && step.w < |s.workers|
    ensures var r := WorkerStep(env, s, step);
            && r.main == s.main && r.fds == s.fds
            && forall i :: 0 <= i < MAX_CLIENTS && Waits(s, i) ==> Waits(r, i)
  {
    hide Exec, PutOpens, RolesOk, DescriptorsOk, TableOk;
    assert !Inside(s.workers[step.w].pc);
  }

  lemma MainStaysStuck(s: Sys, step: Step)
    requires Shape(s) && Stuck(s) && !IsWorkerStep(step)
    ensures Stuck(MainStep(s, step))
  {
    hide FirstFree;
    var r := MainStep(s, step);
    if step.Scan? && s.main.Scanning? {
      var k := s.main.slot;
      if s.fds[k] < 0 {
        var i :| k <= i < MAX_CLIENTS && s.fds[i] >= 0;
        assert r.fds[i] >= 0;
        assert forall j :: 0 <= j < MAX_CLIENTS && Waits(s, j) ==> Waits(r, j);
      } else {
        assert Waits(s, k);
      }
    }
  }

  lemma StepStaysStuck(env: Env, s: Sys, step: Step)
    requires Inv(env, s) && Stuck(s)
    ensures Stuck(Do(env, s, step))
  {
    hide MutexOk, RolesOk, DescriptorsOk, TableOk, Waits, MainStep, WorkerStep;
    if !IsWorkerStep(step) {
      hide Stuck;
      MainStaysStuck(s, step);
    } else if step.w < |s.workers| {
      assert s.holder.Main? by {
        MainHolds(env, s);
      }
      WorkerCannotHelp(env, s, step);
    }
  }

  lemma MainHolds(env: Env, s: Sys)
    requires Inv(env, s)
    ensures MainInside(s.main) ==> s.holder.Main?
  {
    hide RolesOk, DescriptorsOk, TableOk;
  }

  lemma {:induction false} RunStaysStuck(env: Env, s: Sys, steps: seq<Step>)
    requires Inv(env, s) && Stuck(s)
    ensures Stuck(Run(env, s, steps))
    decreases |steps|
  {
    hide MutexOk, RolesOk, DescriptorsOk, TableOk, Do, Stuck;
    if steps != [] {
      StepKeepsInv(env, s, steps[0]);
      StepStaysStuck(env, s, steps[0]);
      RunStaysStuck(env, Do(env, s, steps[0]), steps[1..]);
    }
  }

  lemma {:induction false} ScanAll(env: Env, s: Sys, k: nat)
    requires Shape(s) && s.main == Scanning(k) && k <= MAX_CLIENTS
    requires forall i :: 0 <= i < MAX_CLIENTS ==> s.fds[i] < 0
    ensures Run(env, s, seq(MAX_CLIENTS + 1 - k, _ => Scan)).main.LeavingShutdown?
    decreases MAX_CLIENTS - k
  {
    hide WorkerStep;
    var steps := seq(MAX_CLIENTS + 1 - k, _ => Scan);
    var rest := seq(MAX_CLIENTS - k, _ => Scan);
    assert steps[0] == Scan && steps[1..] == rest;
    if k < MAX_CLIENTS {
      ScanAll(env, Do(env, s, Scan), k + 1);
    } else {
      assert rest == [];
    }
  }

  predicate PastJoins(pc: MainPc) {
    pc.LeavingShutdown? || pc.Stopped?
  }

  /** shutdown_server gets past its join loop exactly when no slot is occupied
      as it takes clients_mutex: a worker it would join needs that mutex first. */
  lemma ShutdownNeedsEmptyTable(env: Env, tree: Tree, before: seq<Step>)
    requires var s := Run(env, Initial(tree), before); s.main.WantsShutdown? && s.holder.Nobody?
    ensures var s := Run(env, Initial(tree), before);
            var r := Do(env, s, ShutdownLock);
            (exists steps :: PastJoins(Run(env, r, steps).main)) <==> forall i :: 0 <= i < MAX_CLIENTS ==> s.fds[i] < 0
  {
    hide Run, Fold, MayWrite, DescriptorsOk, RolesOk, Occupied;
    var s := Run(env, Initial(tree), before);
    var r := Do(env, s, ShutdownLock);
    InitialInv(env, tree);
    RunKeepsInv(env, Initial(tree), before);
    StepKeepsInv(env, s, ShutdownLock);
    if forall i :: 0 <= i < MAX_CLIENTS ==> s.fds[i] < 0 {
      ScanAll(env, r, 0);
      var steps := seq(MAX_CLIENTS + 1, _ => Scan);
      assert PastJoins(Run(env, r, steps).main);
    } else {
      LockedIsStuck(env, s);
      forall steps ensures !PastJoins(Run(env, r, steps).main) {
        RunStaysStuck(env, r, steps);
      }
    }
  }

  const ONE_CLIENT_THEN_SHUTDOWN: seq<Step> :=
    [Accept, Lock, Check, Spawn(true), Count, Unlock, BeginShutdown]

  /** One connection that is still open when the server is shut down. */
  lemma ShutdownCanStick(env: Env, tree: Tree)
    ensures var s := Run(env, Initial(tree), ONE_CLIENT_THEN_SHUTDOWN);
            && s.main.WantsShutdown? && s.holder.Nobody? && s.fds[0] >= 0
            && forall steps :: !PastJoins(Run(env, Do(env, s, ShutdownLock), steps).main)
  {
    OneClientRun(env, tree);
    hide Run, Do, PastJoins;
    ShutdownNeedsEmptyTable(env, tree, ONE_CLIENT_THEN_SHUTDOWN);
  }

  lemma OneClientRun(env: Env, tree: Tree)
    ensures var s := Run(env, Initial(tree), ONE_CLIENT_THEN_SHUTDOWN);
            s.main.WantsShutdown? && s.holder.Nobody? && s.fds[0] >= 0
  {
    var s3 := FirstIsStored(env, tree);
    var s7 := StoredThenShutdown(env, s3);
    RunPair(env, Initial(tree), [Accept, Lock, Check], [Spawn(true), Count, Unlock, BeginShutdown]);
  }

  lemma FirstSteps(env: Env, tree: Tree)
    ensures var s := Do(env, Do(env, Do(env, Initial(tree), Accept), Lock), Check);
            s.main == Stored(0, 0) && s.holder.Main? && s.fds[0] == 0
  {
    assert FirstFree(Initial(tree).fds) == 0;
    hide FirstFree, WorkerStep;
  }

  lemma FirstIsStored(env: Env, tree: Tree) returns (s: Sys)
    ensures Shape(s) && s == Run(env, Initial(tree), [Accept, Lock, Check])
    ensures s.main == Stored(0, 0) && s.holder.Main? && s.fds[0] == 0
  {
    var s0 := Initial(tree);
    hide Run, Do, Initial;
    FirstSteps(env, tree);
    var s1 := Do(env, s0, Accept);
    var s2 := Do(env, s1, Lock);
    s := Do(env, s2, Check);
    RunFront(env, s0, [Accept, Lock, Check], Accept, [Lock, Check]);
    RunFront(env, s1, [Lock, Check], Lock, [Check]);
    RunFront(env, s2, [Check], Check, []);
  }

  lemma StoredThenShutdown(env: Env, s: Sys) returns (r: Sys)
    requires Shape(s) && s.main == Stored(0, 0) && s.holder.Main? && s.fds[0] == 0
    ensures r == Run(env, s, [Spawn(true), Count, Unlock, BeginShutdown])
    ensures r.main.WantsShutdown? && r.holder.Nobody? && |r.fds| > 0 && r.fds[0] >= 0
  {
    assert |s.fds| > 0;
    hide Run, Shape, WorkerStep;
    var s1 := Do(env, s, Spawn(true));
    var s2 := Do(env, s1, Count);
    var s3 := Do(env, s2, Unlock);
    r := Do(env, s3, BeginShutdown);
    hide Do;
    RunFront(env, s, [Spawn(true), Count, Unlock, BeginShutdown], Spawn(true), [Count, Unlock, BeginShutdown]);
    RunFront(env, s1, [Count, Unlock, BeginShutdown], Count, [Unlock, BeginShutdown]);
    RunFront(env, s2, [Unlock, BeginShutdown], Unlock, [BeginShutdown]);
    RunFront(env, s3, [BeginShutdown], BeginShutdown, []);
  }

  lemma {:induction false} RunPair(env: Env, s: Sys, a: seq<Step>, b: seq<Step>)
    requires Shape(s)
    ensures Run(env, s, a + b) == Run(env, Run(env, s, a), b)
    decreases |a|
  {
    hide Do, Shape;
    if a == [] {
      assert a + b == b;
    } else {
      assert (a + b)[1..] == a[1..] + b;
      RunPair(env, Do(env, s, a[0]), a[1..], b);
    }
  }

  lemma RunFront(env: Env, s: Sys, steps: seq<Step>, first: Step, rest: seq<Step>)
    requires Shape(s) && steps == [first] + rest
    ensures Run(env, s, steps) == Run(env, Do(env, s, first), rest)
    ensures rest == [] ==> Run(env, s, steps) == Do(env, s, first)
  {
    hide Do, Shape;
    assert steps[1..] == rest;
  }

  lemma LockedIsStuck(env: Env, s: Sys)
    requires Inv(env, s) && s.main.WantsShutdown? && s.holder.Nobody?
    requires exists i :: 0 <= i < MAX_CLIENTS && s.fds[i] >= 0
    ensures Stuck(Do(env, s, ShutdownLock))
  {
    hide DescriptorsOk, RolesOk, Occupied;
    var r := Do(env, s, ShutdownLock);
    forall i | 0 <= i < MAX_CLIENTS && r.fds[i] >= 0 ensures Waits(r, i) {
      assert HasWorker(s, i);
      assert !Inside(s.workers[s.threads[i]].pc);
    }
  }
}
