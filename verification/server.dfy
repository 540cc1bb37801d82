/** The server's side of one connection: the read loops that collect a request
    and the loop that serves requests until the connection ends. */
module Server {
  import opened CBytes
  import opened Paths
  import opened UserStores
  import opened Sockets
  import opened Requests
  import opened FileOps
  import opened Streams
  import opened Protocol

  /** What is read next continues what has been read. */
  lemma Glue(input: Bytes, have: nat, k: nat)
    requires have + k <= |input|
    ensures input[..have] + input[have..][..k] == input[..have + k]
    ensures input[have..][k..] == input[have + k..]
  {
  }

  /** The buffer starts with these bytes. */
  ghost predicate Holds(held: Bytes, s: Bytes) {
    s <= held
  }

  /** One read into a buffer: taken has been read, b was to come. */
  lemma ReadOn(held: Bytes, front: Bytes, taken: Bytes, b: Bytes, r: nat)
    requires Holds(held, front + taken) && r <= |b| && |front| + |taken| + r <= |held|
    ensures Holds(Overwritten(held, |front| + |taken|, b[..r]), front + (taken + b[..r]))
    ensures taken + b == (taken + b[..r]) + b[r..]
  {
    hide Overwritten;
    TakeMore(taken, b, r);
    assert held[..|front| + |taken|] == front + taken;
    Associates(front, taken, b[..r]);
  }

  lemma ReadAll(held: Bytes, front: Bytes, taken: Bytes, b: Bytes)
    requires Holds(held, front + taken)
    ensures |front| + |taken| <= |held|
    ensures held[..|front| + |taken|] == front + (taken + b)[..|taken|] && (taken + b)[|taken|..] == b
  {
    TakenAndAhead(taken, b);
  }

  /** The loop that appears three times in handle_client: read until the buffer
      holds want bytes, retrying interrupted reads. */
  method Fill(conn: Connection, buffer: array<Byte>, have: nat, want: nat) returns (ok: bool)
    requires have <= want <= buffer.Length
    modifies conn`input, conn`arrivals, buffer
    ensures ok <==> |old(conn.input)| >= want - have
    ensures ok ==> conn.input == old(conn.input)[want - have..]
    ensures ok ==> buffer[..want] == old(buffer[..have]) + old(conn.input)[..want - have]
  {
    ghost var front, input, taken := buffer[..have], conn.input, [];
    assert Holds(buffer[..], front + taken);
    hide Overwritten, Delivered, Holds;
    var bytesRead := have;
    while bytesRead < want
      invariant bytesRead <= want && bytesRead == |front| + |taken|
      invariant input == taken + conn.input
      invariant Holds(buffer[..], front + taken)
      decreases want - bytesRead, |conn.arrivals|
    {
      ghost var held, before := buffer[..], conn.input;
      var r, again := conn.Read(buffer, bytesRead, want - bytesRead);
      if r <= 0 {
        if again {
          continue;
        }
        return false;
      }
      ReadOn(held, front, taken, before, r);
      taken := taken + before[..r];
      bytesRead := bytesRead + r;
    }
    ReadAll(buffer[..], front, taken, conn.input);
    assert buffer[..want] == buffer[..][..want];
    return true;
  }

  method HandleClient(conn: Connection, disk: Disk, store: UserStore, env: Env, roles: array<int>, index: nat)
    returns (rc: int)
    requires !conn.failed && disk.Valid() && disk.place == env.place
    requires store.Valid() && env.users == store.Contents() && index < roles.Length
    modifies conn, disk`tree, roles
    ensures disk.Valid()
    ensures var o := HandleOne(env, old(disk.tree), old(roles[index]), old(conn.input));
            && rc == (if o.ok && !conn.failed then 0 else -1)
            && disk.tree == o.tree && roles[..] == old(roles[..])[index := o.role]
            && (rc == 0 ==> conn.input == o.rest)
            && Answered(old(conn.output), conn.output, o.reply, conn.failed)
  {
    hide Collect, Process, Decode, Answered, GetU16, GetU32, WellFormed;
    HandleKeepsTree(env, disk.tree, roles[index], conn.input);
    ghost var input := conn.input;
    ghost var start := conn.output;
    var buffer := new Byte[BUFFER_SIZE];
    var size := CollectRequest(conn, buffer);
    if size < 0 {
      NothingAnswered(start);
      return -1;
    }
    NothingAnswered(start);
    rc := ProcessRequest(conn, disk, store, env, buffer, size, roles, index);
  }

  lemma NothingAnswered(s: Bytes)
    ensures Answered(s, s, [], false)
  {
  }

  /** handle_client up to the call of process_request: the number of bytes that
      are in the buffer, or -1. */
  method CollectRequest(conn: Connection, buffer: array<Byte>) returns (size: int)
    requires buffer.Length == BUFFER_SIZE
    modifies conn`input, conn`arrivals, buffer
    ensures size <= buffer.Length
    ensures size < 0 ==> Collect(old(conn.input)).Hangup?
    ensures size >= 0 ==>
              match Decode(buffer[..size])
              case Hangup => Collect(old(conn.input)).Hangup?
              case Request(req, total, _) => Collect(old(conn.input)) == Collected.Request(req, total, conn.input)
  {
    hide GetU16, GetU32, Decode, Collect;
    ghost var input := conn.input;
    ShortInputHangsUp(input);
    var ok, pathLength, dataLength := CollectHeader(conn, buffer);
    if !ok {
      return -1;
    }
    if HEADER_SIZE + pathLength > BUFFER_SIZE {
      return -1;
    }
    var start := HEADER_SIZE + pathLength;
    ok := Fill(conn, buffer, HEADER_SIZE, start);
    if !ok {
      return -1;
    }
    Glue(input, HEADER_SIZE, pathLength);
    var remainingBuffer := BUFFER_SIZE - start;
    var toReadPayload := if dataLength < remainingBuffer then dataLength else remainingBuffer;
    ok := Fill(conn, buffer, start, start + toReadPayload);
    if !ok {
      return -1;
    }
    Glue(input, start, toReadPayload);
    DecodeCollected(input, start + toReadPayload);
    return start + toReadPayload;
  }

  /** When the read loops cannot be completed there is no request. */
  lemma ShortInputHangsUp(input: Bytes)
    ensures |input| < HEADER_SIZE ==> Collect(input).Hangup?
    ensures |input| >= HEADER_SIZE ==>
              var start := HEADER_SIZE + GetU16(input[1..3]);
              start > BUFFER_SIZE || |input| < start + Window(start - HEADER_SIZE, GetU32(input[3..7])) ==>
                Collect(input).Hangup?
  {
    hide GetU16, GetU32;
  }

  /** The first read loop and the two length fields. */
  method CollectHeader(conn: Connection, buffer: array<Byte>) returns (ok: bool, pathLength: nat, dataLength: nat)
    requires buffer.Length == BUFFER_SIZE
    modifies conn`input, conn`arrivals, buffer
    ensures ok <==> |old(conn.input)| >= HEADER_SIZE
    ensures ok ==>
              && buffer[..HEADER_SIZE] == old(conn.input)[..HEADER_SIZE] && conn.input == old(conn.input)[HEADER_SIZE..]
              && pathLength == GetU16(old(conn.input)[1..3]) && dataLength == GetU32(old(conn.input)[3..7])
  {
    hide GetU16, GetU32;
    ghost var input := conn.input;
    ok := Fill(conn, buffer, 0, HEADER_SIZE);
    if !ok {
      return false, 0, 0;
    }
    assert buffer[..HEADER_SIZE] == input[..HEADER_SIZE];
    assert buffer[1..3] == buffer[..HEADER_SIZE][1..3] == input[1..3];
    assert buffer[3..7] == buffer[..HEADER_SIZE][3..7] == input[3..7];
    return true, GetU16(buffer[1..3]), GetU32(buffer[3..7]);
  }

  // A whole connection

  lemma {:induction false} FlattenAppend(a: seq<Bytes>, b: seq<Bytes>)
    ensures Flatten(a + b) == Flatten(a) + Flatten(b)
  {
    if a == [] {
      assert a + b == b;
    } else {
      assert (a + b)[1..] == a[1..] + b;
      FlattenAppend(a[1..], b);
    }
  }

  /** The session that continues as s after these replies and roles. */
  function Continued(replies: seq<Bytes>, roles: seq<int>, s: Session): Session {
    Session(replies + s.replies, roles + s.roles, s.tree, s.tail)
  }

  /** Everything the connection's client is sent. */
  function Sent(s: Session): Bytes {
    Flatten(s.replies) + s.tail
  }

  lemma ContinuedByOne(replies: seq<Bytes>, roles: seq<int>, reply: Bytes, role: int, s: Session)
    ensures Continued(replies, roles, Session([reply] + s.replies, [role] + s.roles, s.tree, s.tail)) ==
            Continued(replies + [reply], roles + [role], s)
    ensures Flatten(replies + [reply]) == Flatten(replies) + reply
  {
    assert replies + ([reply] + s.replies) == (replies + [reply]) + s.replies;
    assert roles + ([role] + s.roles) == (roles + [role]) + s.roles;
    FlattenAppend(replies, [reply]);
    assert [reply][1..] == [];
  }

  /** What is sent in a session starts with its first replies and the next one. */
  lemma SentStarts(replies: seq<Bytes>, roles: seq<int>, s: Session)
    ensures Sent(Continued(replies, roles, s)) == Flatten(replies) + Sent(s)
  {
    FlattenAppend(replies, s.replies);
  }

  datatype Between = Between(tree: Tree, role: int, rest: Bytes)

  /** Where a connection is after n requests that left it up. */
  function After(env: Env, t: Tree, role: int, input: Bytes, n: nat): Between
    decreases n
  {
    var o := HandleOne(env, t, role, input);
    if n == 0 || !o.ok then Between(t, role, input) else After(env, o.tree, o.role, o.rest, n - 1)
  }

  lemma AfterNone(env: Env, t: Tree, role: int, input: Bytes)
    ensures After(env, t, role, input, 0) == Between(t, role, input)
  {
    hide HandleOne;
  }

  lemma {:induction false} AfterNext(env: Env, t: Tree, role: int, input: Bytes, n: nat)
    ensures var b := After(env, t, role, input, n);
            var o := HandleOne(env, b.tree, b.role, b.rest);
            After(env, t, role, input, n + 1) == if o.ok then Between(o.tree, o.role, o.rest) else b
    decreases n
  {
    hide HandleOne;
    var o := HandleOne(env, t, role, input);
    if n > 0 && o.ok {
      AfterNext(env, o.tree, o.role, o.rest, n - 1);
    }
  }

  /** The request loop of client_handler. For every schedule of arrivals the
      connection is the session its bytes determine, as long as replies can be
      written; the role sequence is the one that session has. */
  method ServeConnection(conn: Connection, disk: Disk, store: UserStore, env: Env, roles: array<int>, index: nat)
    returns (history: seq<int>)
    requires !conn.failed && disk.Valid() && disk.place == env.place
    requires store.Valid() && env.users == store.Contents() && index < roles.Length
    modifies conn, disk`tree, roles
    ensures disk.Valid()
    ensures forall j :: 0 <= j < roles.Length && j != index ==> roles[j] == old(roles[j])
    ensures var s := Serve(env, old(disk.tree), old(roles[index]), old(conn.input));
            if conn.failed then
              old(conn.output) <= conn.output && conn.output <= old(conn.output) + Sent(s) && history <= s.roles
            else
              conn.output == old(conn.output) + Sent(s) && disk.tree == s.tree && history == s.roles
    ensures var b := After(env, old(disk.tree), old(roles[index]), old(conn.input), |history|);
            disk.tree == HandleOne(env, b.tree, b.role, b.rest).tree
  {
    hide HandleOne, WellFormed, Flatten, Sent, After;
    ghost var tree, role, input := disk.tree, roles[index], conn.input;
    ghost var at := Between(tree, role, input);
    AfterNone(env, tree, role, input);
    ghost var whole := Serve(env, tree, role, input);
    ghost var start := conn.output;
    ghost var replies := [];
    history := [];
    NothingSent(start, whole);
    while true
      invariant !conn.failed && disk.Valid()
      invariant forall j :: 0 <= j < roles.Length && j != index ==> roles[j] == old(roles[j])
      invariant whole == Continued(replies, history, Serve(env, disk.tree, roles[index], conn.input))
      invariant conn.output == start + Flatten(replies)
      invariant at == Between(disk.tree, roles[index], conn.input)
      invariant After(env, tree, role, input, |history|) == at
      decreases |conn.input|
    {
      ghost var o := HandleOne(env, disk.tree, roles[index], conn.input);
      ghost var rest := Serve(env, o.tree, o.role, o.rest);
      ghost var before, now := conn.output, Serve(env, disk.tree, roles[index], conn.input);
      var rc := HandleClient(conn, disk, store, env, roles, index);
      if rc != 0 {
        LastReply(start, before, conn.output, replies, history, now, o, rest, conn.failed);
        break;
      }
      AfterNext(env, tree, role, input, |history|);
      at := Between(o.tree, o.role, o.rest);
      ContinuedByOne(replies, history, o.reply, o.role, rest);
      assert (start + Flatten(replies)) + o.reply == start + (Flatten(replies) + o.reply);
      replies, history := replies + [o.reply], history + [roles[index]];
    }
  }

  lemma NothingSent(start: Bytes, s: Session)
    ensures Continued([], [], s) == s
    ensures start + Flatten([]) == start
  {
    assert [] + s.replies == s.replies && [] + s.roles == s.roles;
  }

  /** The loop ends: the session is over, or the reply could not be written. */
  lemma LastReply(start: Bytes, before: Bytes, after: Bytes, replies: seq<Bytes>, roles: seq<int>,
                  now: Session, o: Outcome, rest: Session, failed: bool)
    requires before == start + Flatten(replies) && Answered(before, after, o.reply, failed)
    requires !o.ok || failed
    requires now == if !o.ok then Session([], [], o.tree, o.reply)
                    else Session([o.reply] + rest.replies, [o.role] + rest.roles, rest.tree, rest.tail)
    ensures var s := Continued(replies, roles, now);
            if failed then start <= after && after <= start + Sent(s) && roles <= s.roles
            else after == start + Sent(s) && s.roles == roles && s.tree == o.tree
  {
    SentStarts(replies, roles, now);
    ReplyIsSent(o, rest, now);
    hide Flatten, Sent;
    Associates(start, Flatten(replies), Sent(now));
    StillPrefix(before, o.reply, Sent(now));
    AnsweredWithin(start, before, after, o.reply, before + Sent(now), failed);
    assert !o.ok ==> roles + now.roles == roles;
  }

  lemma ReplyIsSent(o: Outcome, rest: Session, now: Session)
    requires now == if !o.ok then Session([], [], o.tree, o.reply)
                    else Session([o.reply] + rest.replies, [o.role] + rest.roles, rest.tree, rest.tail)
    ensures o.reply <= Sent(now) && (!o.ok ==> Sent(now) == o.reply)
  {
    if o.ok {
      assert now.replies[1..] == rest.replies;
      assert Sent(now) == o.reply + (Flatten(rest.replies) + rest.tail);
    }
  }

  lemma AnsweredWithin(start: Bytes, before: Bytes, after: Bytes, reply: Bytes, whole: Bytes, failed: bool)
    requires start <= before && Answered(before, after, reply, failed) && before + reply <= whole
    ensures start <= after && after <= whole
    ensures !failed ==> after == before + reply
  {
  }

  lemma StillPrefix(a: Bytes, b: Bytes, c: Bytes)
    requires b <= c
    ensures a + b <= a + c
  {
  }

  /** Two connections that deliver the same bytes before they end, whatever the
      sizes of the pieces and the interruptions, get the same replies and leave
      the same tree and the same roles. */
  method SplitsDoNotMatter(a: Connection, b: Connection, diskA: Disk, diskB: Disk, store: UserStore, env: Env,
                           rolesA: array<int>, rolesB: array<int>, index: nat)
    returns (historyA: seq<int>, historyB: seq<int>)
    requires !a.failed && !b.failed && a != b && diskA != diskB && rolesA != rolesB
    requires diskA.Valid() && diskB.Valid() && diskA.place == env.place == diskB.place && diskA.tree == diskB.tree
    requires store.Valid() && env.users == store.Contents()
    requires index < rolesA.Length == rolesB.Length && rolesA[index] == rolesB[index]
    requires a.input == b.input && a.output == b.output
    modifies a, b, diskA`tree, diskB`tree, rolesA, rolesB
    ensures !a.failed && !b.failed ==>
              a.output == b.output && diskA.tree == diskB.tree && historyA == historyB
  {
    historyA := ServeConnection(a, diskA, store, env, rolesA, index);
    historyB := ServeConnection(b, diskB, store, env, rolesB, index);
  }
}
