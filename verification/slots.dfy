/** The client table: the accept loop, one worker thread per slot and the
    shutdown, interleaved step by step over the state they share. */
module Slots {
  import opened CBytes
  import opened Paths
  import opened Users
  import opened Requests

  const MAX_CLIENTS: nat := 100

  datatype Thread = Nobody | Main | Worker(id: nat)

  datatype MainPc =
    | Idle                           // between calls of server_process
    | Accepted(fd: nat)              // waiting for clients_mutex
    | Checking(fd: nat)              // holds it from here ...
    | Stored(fd: nat, slot: nat)     // slot filled, thread not yet created
    | Created(slot: nat)             // thread created, not yet counted
    | Releasing                      // ... to here
    | WantsShutdown                  // listening socket closed, waiting for the mutex
    | Scanning(slot: nat)            // holds it from here ...
    | Joining(slot: nat)             // in pthread_join on the slot's thread
    | LeavingShutdown                // ... to here
    | Stopped

  datatype WorkerPc =
    | Starting
    | Serving(fd: nat)
    | Putting(fd: nat, target: Path)  // a PUT has its file open
    | Wanting                         // waiting for clients_mutex
    | Cleaning                        // holds it
    | Unlocking                       // has cleaned up, still holds it
    | Ended

  /** One worker thread, with the requests its connection has been served. */
  datatype WorkerState = WorkerState(slot: nat, pc: WorkerPc, log: seq<Request>)

  /** closes[fd] counts the calls of close on each descriptor accepted so far. */
  datatype Sys = Sys(
    tree: Tree,
    fds: seq<int>,
    roles: seq<int>,
    threads: seq<nat>,
    numClients: int,
    holder: Thread,
    main: MainPc,
    workers: seq<WorkerState>,
    closes: seq<nat>)

  datatype Step =
    | Accept | Lock | Check | Spawn(ok: bool) | Count | Unlock
    | BeginShutdown | ShutdownLock | Scan | Join | ShutdownUnlock
    | Begin(w: nat)
    | Serve(w: nat, req: Request, drop: bool)  // drop: the reply could not be written
    | PutOpen(w: nat, req: Request)
    | PutChunk(w: nat, data: Bytes)
    | PutClose(w: nat, drop: bool)
    | Hang(w: nat)                             // the connection ends
    | WorkerLock(w: nat) | Cleanup(w: nat) | WorkerUnlock(w: nat)

  // Shapes and counts

  predicate Shape(s: Sys) {
    && |s.fds| == |s.roles| == |s.threads| == MAX_CLIENTS
    && (forall i :: 0 <= i < MAX_CLIENTS ==> -1 <= s.fds[i] < |s.closes|)
    && (forall w :: 0 <= w < |s.workers| ==> s.workers[w].slot < MAX_CLIENTS)
    && (s.main.Accepted? || s.main.Checking? || s.main.Stored? ==> s.main.fd < |s.closes|)
    && (s.main.Stored? || s.main.Created? || s.main.Joining? ==> s.main.slot < MAX_CLIENTS)
    && (s.main.Scanning? ==> s.main.slot <= MAX_CLIENTS)
  }

  function FirstFree(fds: seq<int>): (k: nat)
    ensures k <= |fds|
    ensures k < |fds| ==> fds[k] == -1
    ensures forall i :: 0 <= i < k ==> fds[i] != -1
  {
    if fds == [] || fds[0] == -1 then 0
    else
      var k := FirstFree(fds[1..]);
      assert forall i :: 0 < i < k + 1 ==> fds[i] == fds[1..][i - 1];
      k + 1
  }

  function Occupied(fds: seq<int>): (n: nat)
    ensures n <= |fds|
  {
    if fds == [] then 0 else (if fds[0] >= 0 then 1 else 0) + Occupied(fds[1..])
  }

  /** In how many slots the descriptor is. */
  function Holds(fds: seq<int>, fd: int): nat {
    if fds == [] then 0 else (if fds[0] == fd then 1 else 0) + Holds(fds[1..], fd)
  }

  // Steps

  function Close(s: Sys, fd: int): Sys
    requires 0 <= fd < |s.closes|
  {
    s.(closes := s.closes[fd := s.closes[fd] + 1])
  }

  function SetWorker(s: Sys, w: nat, pc: WorkerPc): Sys
    requires w < |s.workers|
  {
    s.(workers := s.workers[w := s.workers[w].(pc := pc)])
  }

  function Logged(s: Sys, w: nat, pc: WorkerPc, req: Request): Sys
    requires w < |s.workers|
  {
    s.(workers := s.workers[w := WorkerState(s.workers[w].slot, pc, s.workers[w].log + [req])])
  }

  function MainStep(s: Sys, step: Step): (r: Sys)
    requires Shape(s)
    ensures Shape(r)
  {
    match step
    case Accept =>
      if s.main.Idle? then s.(main := Accepted(|s.closes|), closes := s.closes + [0]) else s
    case Lock =>
      if s.main.Accepted? && s.holder.Nobody? then s.(main := Checking(s.main.fd), holder := Main) else s
    case Check =>
      if !s.main.Checking? then s
      else if s.numClients >= MAX_CLIENTS then Close(s, s.main.fd).(main := Releasing)
      else
        var i := FirstFree(s.fds);
        if i == MAX_CLIENTS then s.(main := Releasing)
        else s.(fds := s.fds[i := s.main.fd], roles := s.roles[i := ROLE_GUEST], main := Stored(s.main.fd, i))
    case Spawn(ok) =>
      if !s.main.Stored? then s
      else
        var i := s.main.slot;
        if ok then
          s.(workers := s.workers + [WorkerState(i, Starting, [])], threads := s.threads[i := |s.workers|],
             main := Created(i))
        else Close(s, s.main.fd).(fds := s.fds[i := -1], main := Releasing)
    case Count =>
      if s.main.Created? then s.(numClients := s.numClients + 1, main := Releasing) else s
    case Unlock =>
      if s.main.Releasing? then s.(main := Idle, holder := Nobody) else s
    case BeginShutdown =>
      if s.main.Idle? then s.(main := WantsShutdown) else s
    case ShutdownLock =>
      if s.main.WantsShutdown? && s.holder.Nobody? then s.(main := Scanning(0), holder := Main) else s
    case Scan =>
      if !s.main.Scanning? then s
      else
        var i := s.main.slot;
        if i == MAX_CLIENTS then s.(numClients := 0, main := LeavingShutdown)
        else if s.fds[i] >= 0 then Close(s, s.fds[i]).(fds := s.fds[i := -1], main := Joining(i))
        else s.(main := Scanning(i + 1))
    case Join =>
      if s.main.Joining? && s.threads[s.main.slot] < |s.workers| && s.workers[s.threads[s.main.slot]].pc.Ended?
      then s.(main := Scanning(s.main.slot + 1))
      else s
    case ShutdownUnlock =>
      if s.main.LeavingShutdown? then s.(main := Stopped, holder := Nobody) else s
    case _ => s
  }

  predicate IsWorkerStep(step: Step) {
    step.Begin? || step.Serve? || step.PutOpen? || step.PutChunk? || step.PutClose? || step.Hang? ||
    step.WorkerLock? || step.Cleanup? || step.WorkerUnlock?
  }

  function WorkerStep(env: Env, s: Sys, step: Step): (r: Sys)
    requires Shape(s) && IsWorkerStep(step) && step.w < |s.workers|
    ensures Shape(r)
  {
    var w := step.w;
    var me := s.workers[w];
    match step
    case Begin(_) =>
      if me.pc.Starting? then SetWorker(s, w, if s.fds[me.slot] >= 0 then Serving(s.fds[me.slot]) else Wanting) else s
    case Serve(_, req, drop) =>
      if !me.pc.Serving? || PutOpens(env, s.tree, s.roles[me.slot], req).Some? then s
      else
        var e := Exec(env, s.tree, s.roles[me.slot], req);
        Logged(s.(tree := e.tree, roles := s.roles[me.slot := e.role]), w,
               if e.ok && !drop then me.pc else Wanting, req)
    case PutOpen(_, req) =>
      if !me.pc.Serving? then s
      else
        var target := PutOpens(env, s.tree, s.roles[me.slot], req);
        if target.None? then s
        else Logged(s.(tree := s.tree[target.value := File([])]), w, Putting(me.pc.fd, target.value), req)
    case PutChunk(_, data) =>
      if me.pc.Putting? && me.pc.target in s.tree && s.tree[me.pc.target].File?
      then s.(tree := s.tree[me.pc.target := File(s.tree[me.pc.target].content + data)])
      else s
    case PutClose(_, drop) =>
      if me.pc.Putting? then SetWorker(s, w, if drop then Wanting else Serving(me.pc.fd)) else s
    case Hang(_) =>
      if me.pc.Serving? then SetWorker(s, w, Wanting) else s
    case WorkerLock(_) =>
      if me.pc.Wanting? && s.holder.Nobody? then SetWorker(s.(holder := Worker(w)), w, Cleaning) else s
    case Cleanup(_) =>
      if !me.pc.Cleaning? then s
      else if s.fds[me.slot] < 0 then SetWorker(s, w, Unlocking)
      else
        SetWorker(
          Close(s, s.fds[me.slot]).(fds := s.fds[me.slot := -1], roles := s.roles[me.slot := ROLE_GUEST],
                                    numClients := s.numClients - 1),
          w, Unlocking)
    case WorkerUnlock(_) =>
      if me.pc.Unlocking? then SetWorker(s.(holder := Nobody), w, Ended) else s
  }

  /** One step; a step that is not possible now changes nothing. */
  function Do(env: Env, s: Sys, step: Step): (r: Sys)
    requires Shape(s)
    ensures Shape(r)
  {
    if IsWorkerStep(step) then
      if step.w < |s.workers| then WorkerStep(env, s, step) else s
    else MainStep(s, step)
  }

  function Run(env: Env, s: Sys, steps: seq<Step>): (r: Sys)
    requires Shape(s)
    ensures Shape(r)
    decreases |steps|
  {
    if steps == [] then s else Run(env, Do(env, s, steps[0]), steps[1..])
  }

  /** After init_server. */
  function Initial(tree: Tree): (s: Sys)
    ensures Shape(s)
  {
    Sys(tree, seq(MAX_CLIENTS, _ => -1), seq(MAX_CLIENTS, _ => ROLE_GUEST), seq(MAX_CLIENTS, _ => 0),
        0, Nobody, Idle, [], [])
  }

  // Invariants

  /** The role that the successful AUTH and LOGOUT requests of one connection
      lead to, from the guest it starts as. */
  function Fold(env: Env, log: seq<Request>): int {
    if log == [] then ROLE_GUEST
    else
      var front, req := log[..|log| - 1], log[|log| - 1];
      if req.cmd == CMD_AUTH then
        match Login(env, req.data) case Some(r) => r case None => Fold(env, front)
      else if req.cmd == CMD_LOGOUT then ROLE_GUEST
      else Fold(env, front)
  }

  predicate MainInside(pc: MainPc) {
    pc.Checking? || pc.Stored? || pc.Created? || pc.Releasing? || pc.Scanning? || pc.Joining? || pc.LeavingShutdown?
  }

  predicate Inside(pc: WorkerPc) {
    pc.Cleaning? || pc.Unlocking?
  }

  /** The worker has not yet run its cleanup. */
  predicate Live(pc: WorkerPc) {
    !pc.Unlocking? && !pc.Ended?
  }

  predicate ShuttingDown(pc: MainPc) {
    pc.Scanning? || pc.Joining? || pc.LeavingShutdown? || pc.Stopped?
  }

  /** clients_mutex excludes: its holder is the one thread inside. */
  ghost predicate MutexOk(s: Sys) {
    && (s.holder.Main? <==> MainInside(s.main))
    && (forall w :: 0 <= w < |s.workers| ==> (s.holder == Worker(w) <==> Inside(s.workers[w].pc)))
  }

  /** A slot's role is the fold of what its current connection was served, and
      a file is open for a PUT only in a session that may write. */
  ghost predicate RolesOk(env: Env, s: Sys)
    requires Shape(s)
  {
    && (forall w :: 0 <= w < |s.workers| && Live(s.workers[w].pc) ==>
          s.threads[s.workers[w].slot] == w && s.roles[s.workers[w].slot] == Fold(env, s.workers[w].log))
    && (forall w :: 0 <= w < |s.workers| && s.workers[w].pc.Putting? ==> MayWrite(Fold(env, s.workers[w].log)))
    && (s.main.Stored? ==> s.roles[s.main.slot] == ROLE_GUEST)
  }

  ghost predicate HasWorker(s: Sys, i: nat)
    requires Shape(s) && i < MAX_CLIENTS
  {
    && s.threads[i] < |s.workers|
    && s.workers[s.threads[i]].slot == i
    && Live(s.workers[s.threads[i]].pc)
  }

  /** Before shutdown every occupied slot has its worker and every live worker
      its slot; only the slot just being filled has none yet. */
  ghost predicate TableOk(s: Sys)
    requires Shape(s)
  {
    && (forall i :: 0 <= i < MAX_CLIENTS && s.fds[i] >= 0 && !(s.main.Stored? && s.main.slot == i) ==> HasWorker(s, i))
    && (forall w :: 0 <= w < |s.workers| && Live(s.workers[w].pc) ==>
          s.fds[s.workers[w].slot] >= 0 && !(s.main.Stored? && s.main.slot == s.workers[w].slot))
    && (s.main.Stored? ==> s.fds[s.main.slot] == s.main.fd)
    && s.numClients + (if s.main.Stored? || s.main.Created? then 1 else 0) == Occupied(s.fds)
  }

  predicate Pending(pc: MainPc, fd: int) {
    (pc.Accepted? || pc.Checking?) && pc.fd == fd
  }

  /** Every accepted descriptor is waiting to be stored, in exactly one slot, or
      closed exactly once, and only one of these. */
  ghost predicate DescriptorsOk(s: Sys) {
    forall fd :: 0 <= fd < |s.closes| ==>
      s.closes[fd] + Holds(s.fds, fd) + (if Pending(s.main, fd) then 1 else 0) == 1
  }

  ghost predicate Inv(env: Env, s: Sys) {
    && Shape(s) && MutexOk(s) && RolesOk(env, s) && DescriptorsOk(s)
    && (!ShuttingDown(s.main) ==> TableOk(s))
  }

  // Counting lemmas

  lemma {:induction false} OccupiedUpdate(fds: seq<int>, i: nat, fd: int)
    requires i < |fds|
    ensures Occupied(fds[i := fd]) == Occupied(fds) - (if fds[i] >= 0 then 1 else 0) + (if fd >= 0 then 1 else 0)
  {
    if i == 0 {
      assert fds[i := fd][1..] == fds[1..];
    } else {
      assert fds[i := fd][1..] == fds[1..][i - 1 := fd];
      OccupiedUpdate(fds[1..], i - 1, fd);
    }
  }

  lemma {:induction false} HoldsUpdate(fds: seq<int>, i: nat, fd: int, x: int)
    requires i < |fds|
    ensures Holds(fds[i := fd], x) == Holds(fds, x) - (if fds[i] == x then 1 else 0) + (if fd == x then 1 else 0)
  {
    if i == 0 {
      assert fds[i := fd][1..] == fds[1..];
    } else {
      assert fds[i := fd][1..] == fds[1..][i - 1 := fd];
      HoldsUpdate(fds[1..], i - 1, fd, x);
    }
  }

  lemma {:induction false} HoldsNone(fds: seq<int>, x: int)
    requires forall i :: 0 <= i < |fds| ==> fds[i] != x
    ensures Holds(fds, x) == 0
  {
    if fds != [] {
      HoldsNone(fds[1..], x);
    }
  }

  lemma {:induction false} HoldsSome(fds: seq<int>, i: nat, x: int)
    requires i < |fds| && fds[i] == x
    ensures Holds(fds, x) >= 1
  {
    if i > 0 {
      HoldsSome(fds[1..], i - 1, x);
    }
  }

  /** With fewer than 100 slots occupied, the search for a free one succeeds. */
  lemma {:induction false} FullTable(fds: seq<int>, i: nat)
    requires Occupied(fds) >= |fds| && i < |fds|
    ensures fds[i] >= 0
  {
    assert Occupied(fds[1..]) <= |fds| - 1;
    if i > 0 {
      FullTable(fds[1..], i - 1);
    }
  }

  lemma {:induction false} FreeSlotExists(fds: seq<int>)
    requires Occupied(fds) < |fds| && forall i :: 0 <= i < |fds| ==> fds[i] >= -1
    ensures FirstFree(fds) < |fds|
  {
    if fds[0] >= 0 {
      FreeSlotExists(fds[1..]);
    }
  }
}
