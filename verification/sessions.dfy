/** A worker of the concurrent server that steps alone serves its connection as
    the byte stream determines. */
module Sessions {
  import opened CBytes
  import opened Paths
  import opened Resolve
  import opened Files
  import opened Users
  import opened Requests
  import opened Streams
  import opened Slots

  /** The steps of worker w for one request: its handler, or open, the window of
      data that came with the header, the rest of the data, and close. */
  function RequestSteps(env: Env, t: Tree, role: int, input: Bytes, w: nat): seq<Step> {
    match Collect(input)
    case Hangup => [Hang(w)]
    case Request(req, total, rest) =>
      if PutOpens(env, t, role, req).None? then [Step.Serve(w, req, false)]
      else
        var got := Min(total - |req.data|, |rest|);
        [PutOpen(w, req), PutChunk(w, req.data), PutChunk(w, rest[..got]), PutClose(w, got < total - |req.data|)]
  }

  /** The steps of worker w for the whole connection. */
  function SessionSteps(env: Env, t: Tree, role: int, input: Bytes, w: nat): seq<Step>
    decreases |input|
  {
    var o := HandleOne(env, t, role, input);
    RequestSteps(env, t, role, input, w) + if o.ok then SessionSteps(env, o.tree, o.role, o.rest, w) else []
  }

  predicate Serves(s: Sys, w: nat) {
    w < |s.workers| && s.workers[w].pc.Serving?
  }

  /** After a request the worker serves on, or has given the connection up; the
      tree and its own slot's role are what the request made them. */
  predicate Stepped(s: Sys, r: Sys, w: nat, tree: Tree, role: int, ok: bool)
    requires Shape(s) && w < |s.workers|
  {
    && r.tree == tree && r.roles == s.roles[s.workers[w].slot := role]
    && |r.workers| == |s.workers| && r.workers == s.workers[w := r.workers[w]]
    && r.workers[w].slot == s.workers[w].slot
    && (if ok then r.workers[w].pc == s.workers[w].pc else r.workers[w].pc.Wanting?)
    && r.fds == s.fds && r.threads == s.threads && r.numClients == s.numClients && r.closes == s.closes
    && r.holder == s.holder && r.main == s.main
  }

  lemma {:induction false} RunAppend(env: Env, s: Sys, a: seq<Step>, b: seq<Step>)
    requires Shape(s)
    ensures Run(env, s, a + b) == Run(env, Run(env, s, a), b)
    decreases |a|
  {
    hide Do, Shape;
    if a == [] {
      assert a + b == b;
    } else {
      assert (a + b)[1..] == a[1..] + b;
      RunAppend(env, Do(env, s, a[0]), a[1..], b);
    }
  }

  lemma RunOne(env: Env, s: Sys, a: Step)
    requires Shape(s)
    ensures Run(env, s, [a]) == Do(env, s, a)
  {
    hide Do, Shape;
    assert Run(env, s, [a]) == Run(env, Do(env, s, a), [a][1..]);
  }

  lemma RunFour(env: Env, s: Sys, a: Step, b: Step, c: Step, d: Step)
    requires Shape(s)
    ensures Run(env, s, [a, b, c, d]) == Do(env, Do(env, Do(env, Do(env, s, a), b), c), d)
  {
    hide Do, Shape, Run;
    RunOne(env, s, a);
    RunOne(env, Do(env, s, a), b);
    RunOne(env, Do(env, Do(env, s, a), b), c);
    RunOne(env, Do(env, Do(env, Do(env, s, a), b), c), d);
    RunAppend(env, s, [a], [b, c, d]);
    RunAppend(env, Do(env, s, a), [b], [c, d]);
    RunAppend(env, Do(env, Do(env, s, a), b), [c], [d]);
    assert [a] + [b, c, d] == [a, b, c, d] && [b] + [c, d] == [b, c, d] && [c] + [d] == [c, d];
  }

  /** A request that ends the connection leaves the role. */
  lemma EndKeepsRole(env: Env, t: Tree, role: int, req: Request)
    ensures !Exec(env, t, role, req).ok ==> Exec(env, t, role, req).role == role
  {
    hide FullPath, PutTarget, DeleteFile, CreateDirectory, GetReply, Listing, FileInfo, Login, Say, BaseName, Frame;
  }

  lemma ServedAlone(env: Env, s: Sys, w: nat, req: Request)
    requires Shape(s) && Serves(s, w) && PutOpens(env, s.tree, s.roles[s.workers[w].slot], req).None?
    ensures var e := Exec(env, s.tree, s.roles[s.workers[w].slot], req);
            Stepped(s, Do(env, s, Step.Serve(w, req, false)), w, e.tree, e.role, e.ok)
  {
    hide Exec, PutOpens, MainStep;
  }

  lemma OpenAlone(env: Env, s: Sys, w: nat, req: Request)
    requires Shape(s) && Serves(s, w) && PutOpens(env, s.tree, s.roles[s.workers[w].slot], req).Some?
    ensures var p := PutOpens(env, s.tree, s.roles[s.workers[w].slot], req).value;
            Do(env, s, PutOpen(w, req)) ==
            Logged(s.(tree := s.tree[p := File([])]), w, Putting(s.workers[w].pc.fd, p), req)
  {
    hide PutOpens, MainStep;
  }

  /** Worker w has the file p open. */
  predicate Writes(s: Sys, w: nat, p: Path) {
    w < |s.workers| && s.workers[w].pc.Putting? && s.workers[w].pc.target == p && p in s.tree && s.tree[p].File?
  }

  lemma ChunkAlone(env: Env, s: Sys, w: nat, p: Path, data: Bytes)
    requires Shape(s) && Writes(s, w, p)
    ensures Do(env, s, PutChunk(w, data)) == s.(tree := s.tree[p := File(s.tree[p].content + data)])
  {
    hide MainStep;
  }

  lemma CloseAlone(env: Env, s: Sys, w: nat, p: Path, drop: bool)
    requires Shape(s) && Writes(s, w, p)
    ensures Do(env, s, PutClose(w, drop)) == SetWorker(s, w, if drop then Wanting else Serving(s.workers[w].pc.fd))
  {
    hide MainStep;
  }

  lemma OpenAndWrite(env: Env, s: Sys, w: nat, req: Request, more: Bytes, p: Path)
    requires Shape(s) && Serves(s, w) && PutOpens(env, s.tree, s.roles[s.workers[w].slot], req) == Some(p)
    ensures Do(env, Do(env, Do(env, s, PutOpen(w, req)), PutChunk(w, req.data)), PutChunk(w, more)) ==
            Logged(s.(tree := s.tree[p := File(req.data + more)]), w, Putting(s.workers[w].pc.fd, p), req)
  {
    hide Do, PutOpens;
    OpenAlone(env, s, w, req);
    var s1 := Do(env, s, PutOpen(w, req));
    ChunkAlone(env, s1, w, p, req.data);
    var s2 := Do(env, s1, PutChunk(w, req.data));
    assert [] + req.data == req.data;
    assert s2.tree == s.tree[p := File(req.data)];
    ChunkAlone(env, s2, w, p, more);
    assert s2.tree[p := File(req.data + more)] == s.tree[p := File(req.data + more)];
  }

  lemma PutAlone(env: Env, s: Sys, w: nat, req: Request, more: Bytes, drop: bool, p: Path)
    requires Shape(s) && Serves(s, w) && PutOpens(env, s.tree, s.roles[s.workers[w].slot], req) == Some(p)
    ensures Stepped(s, Run(env, s, [PutOpen(w, req), PutChunk(w, req.data), PutChunk(w, more), PutClose(w, drop)]), w,
                    s.tree[p := File(req.data + more)], s.roles[s.workers[w].slot], !drop)
  {
    hide Run, Do, PutOpens, WorkerStep, MainStep, IsWorkerStep;
    assert s.workers[w].slot < |s.roles|;
    hide Shape;
    RunFour(env, s, PutOpen(w, req), PutChunk(w, req.data), PutChunk(w, more), PutClose(w, drop));
    OpenAndWrite(env, s, w, req, more, p);
    var s3 := Logged(s.(tree := s.tree[p := File(req.data + more)]), w, Putting(s.workers[w].pc.fd, p), req);
    CloseAlone(env, s3, w, p, drop);
  }

  /** One request on the stream. */
  lemma RequestAlone(env: Env, s: Sys, w: nat, input: Bytes)
    requires Shape(s) && Serves(s, w)
    ensures var role := s.roles[s.workers[w].slot];
            var o := HandleOne(env, s.tree, role, input);
            Stepped(s, Run(env, s, RequestSteps(env, s.tree, role, input, w)), w, o.tree, o.role, o.ok)
            && (!o.ok ==> o.role == role)
  {
    hide Exec, PutOpens, Collect, Do, Stepped, Message;
    var role := s.roles[s.workers[w].slot];
    match Collect(input)
    case Hangup =>
      HangAlone(env, s, w);
      RunOne(env, s, Hang(w));
    case Request(req, total, rest) =>
      if PutOpens(env, s.tree, role, req).None? {
        ServedAlone(env, s, w, req);
        RunOne(env, s, Step.Serve(w, req, false));
        EndKeepsRole(env, s.tree, role, req);
      } else {
        var got := Min(total - |req.data|, |rest|);
        PutAlone(env, s, w, req, rest[..got], got < total - |req.data|, PutOpens(env, s.tree, role, req).value);
      }
  }

  lemma HangAlone(env: Env, s: Sys, w: nat)
    requires Shape(s) && Serves(s, w)
    ensures Stepped(s, Do(env, s, Hang(w)), w, s.tree, s.roles[s.workers[w].slot], false)
  {
    hide Exec, PutOpens, MainStep;
  }

  /** The role after a session. */
  function LastRole(role: int, roles: seq<int>): int {
    if roles == [] then role else roles[|roles| - 1]
  }

  lemma ThenStepped(s: Sys, r: Sys, q: Sys, w: nat, tree: Tree, role: int, later: Tree, last: int)
    requires Shape(s) && Shape(r) && w < |s.workers| && Stepped(s, r, w, tree, role, true)
    requires w < |r.workers| && Stepped(r, q, w, later, last, false)
    ensures Stepped(s, q, w, later, last, false)
  {
    assert s.roles[s.workers[w].slot := role][s.workers[w].slot := last] == s.roles[s.workers[w].slot := last];
  }

  lemma StillServes(s: Sys, r: Sys, w: nat, tree: Tree, role: int)
    requires Shape(s) && Shape(r) && Serves(s, w) && Stepped(s, r, w, tree, role, true)
    ensures Serves(r, w) && r.tree == tree && r.roles[r.workers[w].slot] == role
  {
  }

  /** The rest of the session after its first request. */
  lemma MoreSteps(env: Env, s: Sys, r: Sys, w: nat, input: Bytes)
    requires Shape(s) && Shape(r) && Serves(s, w) && Serves(r, w)
    requires var role := s.roles[s.workers[w].slot];
             var o := HandleOne(env, s.tree, role, input);
             && o.ok && r == Run(env, s, RequestSteps(env, s.tree, role, input, w))
             && Stepped(s, r, w, o.tree, o.role, true)
             && var v := Streams.Serve(env, o.tree, o.role, o.rest);
                Stepped(r, Run(env, r, SessionSteps(env, o.tree, o.role, o.rest, w)), w,
                        v.tree, LastRole(o.role, v.roles), false)
    ensures var role := s.roles[s.workers[w].slot];
            var v := Streams.Serve(env, s.tree, role, input);
            var end := Run(env, s, SessionSteps(env, s.tree, role, input, w));
            Stepped(s, end, w, v.tree, LastRole(role, v.roles), false)
  {
    hide HandleOne, RequestSteps, Do, Stepped, Run, IsWorkerStep;
    var role := s.roles[s.workers[w].slot];
    hide Shape, Serves;
    var o := HandleOne(env, s.tree, role, input);
    var rest := SessionSteps(env, o.tree, o.role, o.rest, w);
    RunAppend(env, s, RequestSteps(env, s.tree, role, input, w), rest);
    var v := Streams.Serve(env, o.tree, o.role, o.rest);
    ThenStepped(s, r, Run(env, r, rest), w, o.tree, o.role, v.tree, LastRole(o.role, v.roles));
  }

  /** A run in which one worker alone steps through its connection's requests ends
      with the tree and the role that the connection's bytes determine, the worker
      waiting to clean up, and everything else as it was. */
  lemma {:induction false} RunIsSession(env: Env, s: Sys, w: nat, input: Bytes)
    requires Shape(s) && Serves(s, w)
    ensures var role := s.roles[s.workers[w].slot];
            var v := Streams.Serve(env, s.tree, role, input);
            var end := Run(env, s, SessionSteps(env, s.tree, role, input, w));
            Stepped(s, end, w, v.tree, LastRole(role, v.roles), false)
    decreases |input|
  {
    hide HandleOne, RequestSteps, Do, Stepped, Run, IsWorkerStep;
    var role := s.roles[s.workers[w].slot];
    hide Shape, Serves;
    var o := HandleOne(env, s.tree, role, input);
    var steps := RequestSteps(env, s.tree, role, input, w);
    RequestAlone(env, s, w, input);
    if o.ok {
      var r := Run(env, s, steps);
      StillServes(s, r, w, o.tree, o.role);
      RunIsSession(env, r, w, o.rest);
      MoreSteps(env, s, r, w, input);
    } else {
      assert steps + [] == steps;
    }
  }

  // The whole life of a connection

  /** The main thread's steps for a connection, and the worker's first. */
  function Opening(w: nat): seq<Step> {
    [Accept, Lock, Check, Spawn(true), Count, Unlock] + [Begin(w)]
  }

  function Closing(w: nat): seq<Step> {
    [WorkerLock(w), Cleanup(w), WorkerUnlock(w)]
  }

  /** A server at rest with a free slot. */
  predicate Rests(s: Sys)
    requires Shape(s)
  {
    s.main.Idle? && s.holder.Nobody? && s.numClients < MAX_CLIENTS && FirstFree(s.fds) < MAX_CLIENTS
  }

  lemma RunStep(env: Env, s: Sys, steps: seq<Step>, a: Step)
    requires Shape(s)
    ensures Run(env, s, steps + [a]) == Do(env, Run(env, s, steps), a)
  {
    RunAppend(env, s, steps, [a]);
    RunOne(env, Run(env, s, steps), a);
  }

  lemma LetIn(env: Env, s: Sys)
    requires Shape(s) && Rests(s)
    ensures var i := FirstFree(s.fds);
            Run(env, s, [Accept, Lock, Check]) ==
            s.(main := Stored(|s.closes|, i), holder := Main, closes := s.closes + [0],
               fds := s.fds[i := |s.closes|], roles := s.roles[i := ROLE_GUEST])
  {
    hide Run, WorkerStep, FirstFree;
    RunStep(env, s, [], Accept);
    RunStep(env, s, [Accept], Lock);
    RunStep(env, s, [Accept, Lock], Check);
    assert [] + [Accept] == [Accept] && [Accept] + [Lock] == [Accept, Lock];
    assert [Accept, Lock] + [Check] == [Accept, Lock, Check];
    RunNothing(env, s);
  }

  lemma RunNothing(env: Env, s: Sys)
    requires Shape(s)
    ensures Run(env, s, []) == s
  {
  }

  lemma Spawned(env: Env, s: Sys, w: nat)
    requires Shape(s) && s.main.Stored? && w == |s.workers|
    ensures Run(env, s, [Spawn(true), Count, Unlock]) ==
            s.(workers := s.workers + [WorkerState(s.main.slot, Starting, [])],
               threads := s.threads[s.main.slot := w],
               numClients := s.numClients + 1, main := Idle, holder := Nobody)
  {
    hide Run, WorkerStep, FirstFree;
    RunStep(env, s, [], Spawn(true));
    RunStep(env, s, [Spawn(true)], Count);
    RunStep(env, s, [Spawn(true), Count], Unlock);
    assert [] + [Spawn(true)] == [Spawn(true)] && [Spawn(true)] + [Count] == [Spawn(true), Count];
    assert [Spawn(true), Count] + [Unlock] == [Spawn(true), Count, Unlock];
    RunNothing(env, s);
  }

  lemma Begun(env: Env, s: Sys, w: nat)
    requires Shape(s) && w < |s.workers| && s.workers[w].pc.Starting? && s.fds[s.workers[w].slot] >= 0
    ensures Do(env, s, Begin(w)) == SetWorker(s, w, Serving(s.fds[s.workers[w].slot]))
  {
    hide MainStep;
  }

  /** The state with one more connection, whose worker serves it as a guest. */
  function WithConnection(s: Sys): Sys
    requires Shape(s) && Rests(s)
  {
    var i := FirstFree(s.fds);
    s.(fds := s.fds[i := |s.closes|], roles := s.roles[i := ROLE_GUEST], threads := s.threads[i := |s.workers|],
       closes := s.closes + [0], numClients := s.numClients + 1,
       workers := s.workers + [WorkerState(i, Serving(|s.closes|), [])])
  }

  lemma Opened(env: Env, s: Sys)
    requires Shape(s) && Rests(s)
    ensures Run(env, s, Opening(|s.workers|)) == WithConnection(s)
  {
    hide Run, Do, FirstFree;
    var i, w := FirstFree(s.fds), |s.workers|;
    assert i < |s.fds| == |s.threads|;
    hide Shape;
    LetIn(env, s);
    var s3 := Run(env, s, [Accept, Lock, Check]);
    Spawned(env, s3, w);
    RunAppend(env, s, [Accept, Lock, Check], [Spawn(true), Count, Unlock]);
    var six := [Accept, Lock, Check, Spawn(true), Count, Unlock];
    assert [Accept, Lock, Check] + [Spawn(true), Count, Unlock] == six;
    var s6 := Run(env, s, six);
    assert s6.workers == s.workers + [WorkerState(i, Starting, [])] && s6.fds[i] == |s.closes|;
    Begun(env, s6, w);
    RunStep(env, s, six, Begin(w));
    var me := WorkerState(i, Serving(|s.closes|), []);
    assert s6.workers[w := me] == s.workers + [me];
  }

  lemma ClosingSteps(env: Env, s: Sys, w: nat)
    requires Shape(s) && w < |s.workers| && s.workers[w].pc.Wanting? && s.holder.Nobody?
    requires s.fds[s.workers[w].slot] >= 0
    ensures Do(env, Do(env, Do(env, s, WorkerLock(w)), Cleanup(w)), WorkerUnlock(w)) == WithoutConnection(s, w)
  {
    hide MainStep, Exec, PutOpens;
  }

  lemma Closed(env: Env, s: Sys, w: nat)
    requires Shape(s) && w < |s.workers| && s.workers[w].pc.Wanting? && s.holder.Nobody?
    requires s.fds[s.workers[w].slot] >= 0
    ensures Run(env, s, Closing(w)) == WithoutConnection(s, w)
  {
    hide Run, MainStep, Do, WithoutConnection;
    ClosingSteps(env, s, w);
    RunStep(env, s, [], WorkerLock(w));
    RunStep(env, s, [WorkerLock(w)], Cleanup(w));
    RunStep(env, s, [WorkerLock(w), Cleanup(w)], WorkerUnlock(w));
    assert [] + [WorkerLock(w)] == [WorkerLock(w)] && [WorkerLock(w)] + [Cleanup(w)] == [WorkerLock(w), Cleanup(w)];
    assert [WorkerLock(w), Cleanup(w)] + [WorkerUnlock(w)] == Closing(w);
    RunNothing(env, s);
  }

  /** The state after cleanup. */
  function WithoutConnection(s: Sys, w: nat): Sys
    requires Shape(s) && w < |s.workers| && s.fds[s.workers[w].slot] >= 0
  {
    var i := s.workers[w].slot;
    s.(fds := s.fds[i := -1], roles := s.roles[i := ROLE_GUEST], numClients := s.numClients - 1,
       closes := s.closes[s.fds[i] := s.closes[s.fds[i]] + 1],
       workers := s.workers[w := s.workers[w].(pc := Ended)])
  }

  lemma RestsAgain(s: Sys, served: Sys, tree: Tree, role: int)
    requires Shape(s) && Shape(served) && Rests(s) && Shape(WithConnection(s))
    requires Stepped(WithConnection(s), served, |s.workers|, tree, role, false)
    ensures var i, w := FirstFree(s.fds), |s.workers|;
            && w < |served.workers| && served.workers[w].slot == i && served.fds[i] == |s.closes|
            && served.workers[w].pc.Wanting? && served.holder.Nobody?
            && var r := WithoutConnection(served, w);
            && r.tree == tree && r.fds == s.fds && r.numClients == s.numClients && r.closes == s.closes + [1]
            && r.main.Idle? && r.holder.Nobody? && r.roles == s.roles[i := ROLE_GUEST]
            && |r.workers| == w + 1 && r.workers[..w] == s.workers && r.workers[w].pc.Ended? && r.workers[w].slot == i
  {
    hide FirstFree;
  }

  /** From accept to cleanup: a server at rest that takes one connection and serves it
      alone is at rest again, with the tree that the connection's bytes determine for a
      guest, the descriptor closed once, the slot free, and nobody else affected. */
  lemma ConnectionLife(env: Env, s: Sys, input: Bytes)
    requires Shape(s) && Rests(s)
    ensures var i, w := FirstFree(s.fds), |s.workers|;
            var r := Run(env, s, Opening(w) + SessionSteps(env, s.tree, ROLE_GUEST, input, w) + Closing(w));
            && r.tree == Streams.Serve(env, s.tree, ROLE_GUEST, input).tree
            && r.fds == s.fds && r.numClients == s.numClients && r.closes == s.closes + [1]
            && r.main.Idle? && r.holder.Nobody? && r.roles == s.roles[i := ROLE_GUEST]
            && |r.workers| == w + 1 && r.workers[..w] == s.workers && r.workers[w].pc.Ended? && r.workers[w].slot == i
  {
    var w := |s.workers|;
    var steps := SessionSteps(env, s.tree, ROLE_GUEST, input, w);
    Opened(env, s);
    var s1 := Run(env, s, Opening(w));
    assert Serves(s1, w) && s1.tree == s.tree && s1.roles[s1.workers[w].slot] == ROLE_GUEST;
    hide Run, FirstFree, Streams.Serve, SessionSteps, Do, Opening, Closing, Stepped, WithConnection, WithoutConnection,
      Rests, Shape, LastRole;
    RunIsSession(env, s1, w, input);
    var s2 := Run(env, s1, steps);
    var v := Streams.Serve(env, s.tree, ROLE_GUEST, input);
    RestsAgain(s, s2, v.tree, LastRole(ROLE_GUEST, v.roles));
    Closed(env, s2, w);
    RunAppend(env, s, Opening(w), steps);
    RunAppend(env, s, Opening(w) + steps, Closing(w));
  }

  /** A reply that cannot be written ends the connection. */
  lemma LostReplyEnds(env: Env, s: Sys, w: nat, req: Request)
    requires Shape(s) && Serves(s, w)
    ensures Do(env, s, Step.Serve(w, req, true)).workers[w].pc.Wanting? ||
            PutOpens(env, s.tree, s.roles[s.workers[w].slot], req).Some?
  {
    hide Exec, PutOpens, MainStep;
  }
}
