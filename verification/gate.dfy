/** What a client that has not logged in gets from a server with authentication:
    the same refusals over every tree, until its first AUTH that is granted. */
module Gate {
  import opened CBytes
  import opened Paths
  import opened Users
  import opened Requests
  import opened Streams
  import opened Commands

  /** An AUTH with the credentials of a user. */
  predicate Granted(env: Env, req: Request) {
    && req.cmd == 7 && |req.data| >= 128
    && Authenticate(env.users, CStr(req.data), CStr(req.data[64..])).Some?
  }

  /** The reply to a guest. */
  function Refusal(req: Request): Bytes {
    if req.cmd != 7 then Reply(2, "Authentication required")
    else if |req.data| < 128 then Reply(1, "Invalid authentication data")
    else Reply(1, "Authentication failed")
  }

  /** The requests on a stream when none of them reads data of its own. */
  function Requested(input: Bytes): seq<Request>
    decreases |input|
  {
    match Collect(input)
    case Hangup => []
    case Request(req, _, rest) => [req] + Requested(rest)
  }

  /** The stream after the first k of them. */
  function After(input: Bytes, k: nat): Bytes
    decreases |input|
  {
    if k == 0 then input
    else
      match Collect(input)
      case Hangup => []
      case Request(_, _, rest) => After(rest, k - 1)
  }

  lemma RefusedOne(env: Env, t: Tree, input: Bytes)
    requires env.enableAuth && Collect(input).Request? && !Granted(env, Collect(input).req)
    ensures HandleOne(env, t, 0, input) == Outcome(true, Refusal(Collect(input).req), t, 0, Collect(input).rest)
  {
    hide Collect, Exec, Reply, CheckPermission, Authenticate, CStr;
    var req := Collect(input).req;
    if req.cmd == 7 {
      AuthCommand(env, t, 0, req);
    } else {
      AskedExactly(env, t, 0, req);
    }
  }

  /** Until the first AUTH that is granted every request of a guest is refused in the
      same words whatever the tree is, and the tree and the role stay. */
  lemma {:induction false} UntilGranted(env: Env, t: Tree, input: Bytes, k: nat)
    requires env.enableAuth && k <= |Requested(input)|
    requires forall i :: 0 <= i < k ==> !Granted(env, Requested(input)[i])
    ensures var s, later := Serve(env, t, 0, input), Serve(env, t, 0, After(input, k));
            && |s.replies| == k + |later.replies| && s.tree == later.tree && s.tail == later.tail
            && (forall i :: 0 <= i < k ==> s.replies[i] == Refusal(Requested(input)[i]) && s.roles[i] == 0)
            && s.replies[k..] == later.replies && s.roles[k..] == later.roles
    decreases k
  {
    hide Granted, Refusal, Collect, HandleOne;
    if k > 0 {
      var c := Collect(input);
      var reqs := Requested(input);
      assert reqs[0] == c.req && reqs[1..] == Requested(c.rest);
      RefusedOne(env, t, input);
      forall i | 0 <= i < k - 1 ensures !Granted(env, Requested(c.rest)[i]) {
        assert Requested(c.rest)[i] == reqs[i + 1];
      }
      UntilGranted(env, t, c.rest, k - 1);
      var s, next := Serve(env, t, 0, input), Serve(env, t, 0, c.rest);
      assert s.replies == [Refusal(c.req)] + next.replies && s.roles == [0] + next.roles;
      assert s.replies[k..] == next.replies[k - 1..] && s.roles[k..] == next.roles[k - 1..];
    }
  }

  lemma {:induction false} AfterAll(input: Bytes)
    ensures Collect(After(input, |Requested(input)|)).Hangup?
    decreases |input|
  {
    hide Collect;
    var c := Collect(input);
    if c.Request? {
      AfterAll(c.rest);
    }
  }

  /** A connection without such an AUTH leaves the tree as it was, stays a guest, and
      gets one refusal for each request: what it hears is a function of what it
      sends alone. */
  lemma StrangersLearnNothing(env: Env, t: Tree, input: Bytes)
    requires env.enableAuth && forall req :: req in Requested(input) ==> !Granted(env, req)
    ensures var s, reqs := Serve(env, t, 0, input), Requested(input);
            && s.tree == t && s.tail == [] && |s.replies| == |reqs|
            && forall i :: 0 <= i < |reqs| ==> s.replies[i] == Refusal(reqs[i]) && s.roles[i] == 0
  {
    hide Granted, Refusal, Collect, Exec, Process;
    UntilGranted(env, t, input, |Requested(input)|);
    AfterAll(input);
  }

  // Whole sessions

  /** The requests of a connection as they are served. */
  function Heard(env: Env, t: Tree, role: int, input: Bytes): seq<Request>
    decreases |input|
  {
    match Collect(input)
    case Hangup => []
    case Request(req, _, _) =>
      var o := HandleOne(env, t, role, input);
      [req] + if o.ok then Heard(env, o.tree, o.role, o.rest) else []
  }

  lemma AskedOnce(env: Env, t: Tree, role: int, input: Bytes)
    requires Collect(input).Request? && HandleOne(env, t, role, input).ok
    ensures var reply := HandleOne(env, t, role, input).reply;
            reply != [] && (reply[0] == 2 <==> MustLogIn(env, role, Collect(input).req.cmd))
  {
    hide Collect, Exec, CheckPermission, Message;
    var req := Collect(input).req;
    AskedExactly(env, t, role, req);
    StatusOf(RESP_OK, FileWritten);
  }

  /** In every session the reply that asks to log in goes out exactly to the requests
      other than AUTH that come in while the client is a guest, and to none without
      authentication. */
  lemma {:induction false} AskedInSession(env: Env, t: Tree, role: int, input: Bytes, i: nat)
    requires i < |Serve(env, t, role, input).replies|
    ensures var s, reqs := Serve(env, t, role, input), Heard(env, t, role, input);
            && i < |reqs| && s.replies[i] != []
            && (s.replies[i][0] == 2 <==> MustLogIn(env, if i == 0 then role else s.roles[i - 1], reqs[i].cmd))
    decreases |input|
  {
    hide HandleOne, MustLogIn, Collect;
    var o := HandleOne(env, t, role, input);
    OkIsCollected(env, t, role, input);
    if i == 0 {
      AskedOnce(env, t, role, input);
    } else {
      AskedInSession(env, o.tree, o.role, o.rest, i - 1);
      var s, next := Serve(env, t, role, input), Serve(env, o.tree, o.role, o.rest);
      assert s.replies[i] == next.replies[i - 1] && (i > 1 ==> s.roles[i - 1] == next.roles[i - 2]);
    }
  }
}
