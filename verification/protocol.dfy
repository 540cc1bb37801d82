/** The request handlers: code over a socket, the disk, the user table and the
    role of the client's slot. */
module Protocol {
  import opened CBytes
  import opened Paths
  import opened Resolve
  import opened Files
  import opened Users
  import opened UserStores
  import opened Sockets
  import opened Requests
  import opened FileOps
  import opened Streams

  /** A reply was written whole, or a front part of it before a write failed. */
  ghost predicate Answered(before: Bytes, after: Bytes, reply: Bytes, failed: bool) {
    before <= after && after <= before + reply && (!failed ==> after == before + reply)
  }

  method SendHeader(conn: Connection, status: Byte, size: nat) returns (rc: int)
    requires !conn.failed
    modifies conn`output, conn`accepts, conn`failed
    ensures rc == if conn.failed then -1 else 0
    ensures Answered(old(conn.output), conn.output, Header(status, size), conn.failed)
  {
    hide Header;
    var header := Header(status, size);
    var r, again := conn.Write(header);
    if r != |header| {
      conn.failed := true;
      return -1;
    }
    assert header[..r] == header;
    return 0;
  }

  method SendBody(conn: Connection, data: Bytes) returns (rc: int)
    requires !conn.failed
    modifies conn`output, conn`accepts, conn`failed
    ensures rc == if conn.failed then -1 else 0
    ensures Answered(old(conn.output), conn.output, data, conn.failed)
  {
    var ok := conn.WriteAll(data);
    conn.failed := !ok;
    return if ok then 0 else -1;
  }

  lemma AnsweredTwice(a: Bytes, b: Bytes, c: Bytes, first: Bytes, second: Bytes, failed: bool)
    requires Answered(a, b, first, false) && Answered(b, c, second, failed)
    ensures Answered(a, c, first + second, failed)
  {
    assert (a + first) + second == a + (first + second);
  }

  lemma AnsweredFront(a: Bytes, b: Bytes, first: Bytes, second: Bytes)
    requires Answered(a, b, first, true)
    ensures Answered(a, b, first + second, true)
  {
    assert (a + first) + second == a + (first + second);
  }

  method SendResponse(conn: Connection, status: Byte, data: Bytes, size: nat) returns (rc: int)
    requires !conn.failed && size <= |data|
    modifies conn`output, conn`accepts, conn`failed
    ensures rc == if conn.failed then -1 else 0
    ensures Answered(old(conn.output), conn.output, Frame(status, data[..size]), conn.failed)
  {
    hide Header, Answered;
    rc := SendHeader(conn, status, size);
    ghost var middle := conn.output;
    if rc != 0 {
      AnsweredFront(old(conn.output), conn.output, Header(status, size), data[..size]);
      return;
    }
    rc := SendBody(conn, data[..size]);
    AnsweredTwice(old(conn.output), middle, conn.output, Header(status, size), data[..size], conn.failed);
  }

  /** send_response with one of the fixed texts and its hard-coded length. */
  method SendNotice(conn: Connection, status: Byte, n: Notice) returns (rc: int)
    requires !conn.failed
    modifies conn`output, conn`accepts, conn`failed
    ensures rc == if conn.failed then -1 else 0
    ensures Answered(old(conn.output), conn.output, Message(status, n), conn.failed)
  {
    hide Words, Frame, Answered;
    assert Words(n)[..Size(n)] == Words(n);
    rc := SendResponse(conn, status, Words(n), Size(n));
  }

  // AUTH and LOGOUT

  method HandleAuth(conn: Connection, store: UserStore, env: Env, data: Bytes, roles: array<int>, index: nat)
    returns (rc: int)
    requires !conn.failed && store.Valid() && env.users == store.Contents()
    requires index < roles.Length && |data| >= AUTH_SIZE
    modifies conn`output, conn`accepts, conn`failed, roles
    ensures rc == if conn.failed then -1 else 0
    ensures match Login(env, data)
            case Some(r) =>
              && roles[..] == old(roles[..])[index := r]
              && Answered(old(conn.output), conn.output, Frame(RESP_OK, Welcome(CStr(data), r)), conn.failed)
            case None =>
              && roles[..] == old(roles[..])
              && Answered(old(conn.output), conn.output, Message(RESP_ERROR, AuthenticationFailed), conn.failed)
  {
    hide Authenticate, Message, Frame, Welcome, Answered;
    var username, password := CStr(data), CStr(data[64..]);
    var result, role := store.AuthenticateUser(username, password, roles[index]);
    if result == 0 {
      roles[index] := role;
      var response := Welcome(username, role);
      assert response[..|response|] == response;
      rc := SendResponse(conn, RESP_OK, response, |response|);
    } else {
      rc := SendNotice(conn, RESP_ERROR, AuthenticationFailed);
    }
  }

  method HandleLogout(conn: Connection, roles: array<int>, index: nat) returns (rc: int)
    requires !conn.failed && index < roles.Length
    modifies conn`output, conn`accepts, conn`failed, roles
    ensures rc == if conn.failed then -1 else 0
    ensures roles[..] == old(roles[..])[index := ROLE_GUEST]
    ensures Answered(old(conn.output), conn.output, Message(RESP_OK, LoggedOut), conn.failed)
  {
    hide Message, Answered;
    roles[index] := ROLE_GUEST;
    rc := SendNotice(conn, RESP_OK, LoggedOut);
  }

  // GET

  /** The fread and write loops of handle_get_streaming: size is what stat said,
      content what the open file yields. */
  method StreamFile(conn: Connection, content: Bytes, size: nat) returns (rc: int)
    requires !conn.failed
    modifies conn`output, conn`accepts, conn`failed
    ensures rc == if conn.failed then -1 else 0
    ensures Answered(old(conn.output), conn.output, Streamed(content, size), conn.failed)
  {
    ghost var limit := BUFFER_SIZE * ((size + BUFFER_SIZE - 1) / BUFFER_SIZE);
    var sent := 0;
    while sent < size
      invariant sent <= |content| && sent <= limit && !conn.failed
      invariant sent < |content| ==> sent % BUFFER_SIZE == 0
      invariant conn.output == old(conn.output) + content[..sent]
      decreases |content| - sent
    {
      var count := Min(BUFFER_SIZE, |content| - sent);
      if count == 0 {
        break;
      }
      rc := SendBody(conn, content[sent..sent + count]);
      SentSoFar(old(conn.output), content, sent, count);
      if rc != 0 {
        assert content[..sent + count] <= Streamed(content, size);
        return;
      }
      sent := sent + count;
    }
    return 0;
  }

  lemma SentSoFar(start: Bytes, content: Bytes, sent: nat, count: nat)
    requires sent + count <= |content|
    ensures (start + content[..sent]) + content[sent..sent + count] == start + content[..sent + count]
  {
    assert content[..sent] + content[sent..sent + count] == content[..sent + count];
    Associates(start, content[..sent], content[sent..sent + count]);
  }

  method HandleGet(conn: Connection, disk: Disk, env: Env, path: Bytes, role: int) returns (rc: int)
    requires !conn.failed && disk.Valid() && disk.place == env.place && NUL !in path
    modifies conn`output, conn`accepts, conn`failed
    ensures var (ok, reply) := if CheckPermission(role, CMD_GET) then GetReply(env, disk.tree, path)
                               else (true, Message(RESP_ERROR, PermissionDenied));
            && rc == (if ok && !conn.failed then 0 else -1)
            && Answered(old(conn.output), conn.output, reply, conn.failed)
  {
    hide Message, Header, Answered, Walk, Split, FullPath, Stat, Streamed, FileInfo;
    if !CheckPermission(role, CMD_GET) {
      rc := SendNotice(conn, RESP_ERROR, PermissionDenied);
      return;
    }
    var info := disk.GetFileInfo(path);
    if info.None? || !info.value.node.File? {
      rc := SendNotice(conn, RESP_ERROR, ReadFailed);
      return;
    }
    var size := |info.value.node.content|;
    ghost var again := FullPathIn(env.place, disk.tree, path, STREAM_PATH_SIZE);
    ghost var body := if again.None? then None else OpenRead(disk.tree, env.place.cwd, again.value);
    rc := SendHeader(conn, RESP_OK, size);
    ghost var middle := conn.output;
    if rc != 0 {
      if body.Some? {
        AnsweredFront(old(conn.output), conn.output, Header(RESP_OK, size), Streamed(body.value, size));
      }
      return;
    }
    var resolved := new Byte[STREAM_PATH_SIZE];
    var found := disk.GetFullPath(path, resolved);
    if found != 0 {
      return -1;
    }
    var content := OpenRead(disk.tree, env.place.cwd, CStr(resolved[..]));
    if content.None? {
      return -1;
    }
    rc := StreamFile(conn, content.value, size);
    AnsweredTwice(old(conn.output), middle, conn.output, Header(RESP_OK, size), Streamed(content.value, size),
                  conn.failed);
  }

  // PUT

  /** fwrite of what one read has put at the front of the buffer. */
  method AppendFront(disk: Disk, p: Path, buffer: array<Byte>, r: nat,
                     ghost was: Bytes, ghost start: Bytes, ghost taken: Bytes, ghost more: Bytes)
    requires r == |more| <= |was| == buffer.Length && buffer[..] == Overwritten(was, 0, more)
    requires p in disk.tree && disk.tree[p] == File(start + taken)
    modifies disk`tree
    ensures disk.tree == old(disk.tree)[p := File(start + (taken + more))]
  {
    ReadAtFront(was, buffer[..], more);
    hide Overwritten;
    assert buffer[..r] == buffer[..][..r];
    disk.Append(p, buffer[..r]);
    Associates(start, taken, more);
  }

  /** The read loop of handle_put_streaming over an open file. */
  method ReceiveFile(conn: Connection, disk: Disk, p: Path, remaining: nat) returns (left: nat)
    requires p in disk.tree && disk.tree[p].File?
    modifies conn`input, conn`arrivals, disk`tree
    ensures var got := Min(remaining, |old(conn.input)|);
            && left == remaining - got
            && disk.tree == old(disk.tree)[p := File(old(disk.tree)[p].content + old(conn.input)[..got])]
            && conn.input == old(conn.input)[got..]
  {
    hide Overwritten, Delivered;
    left := remaining;
    var buffer := new Byte[BUFFER_SIZE];
    ghost var input, start, taken := conn.input, disk.tree[p].content, [];
    assert start + [] == start;
    while left > 0
      invariant left + |taken| == remaining && input == taken + conn.input
      invariant disk.tree == old(disk.tree)[p := File(start + taken)]
      decreases left, |conn.arrivals|
    {
      ghost var ahead, was := conn.input, buffer[..];
      var r, again := conn.Read(buffer, 0, if left < BUFFER_SIZE then left else BUFFER_SIZE);
      if r < 0 {
        if again {
          continue;
        }
        break;
      } else if r == 0 {
        break;
      }
      AppendFront(disk, p, buffer, r, was, start, taken, ahead[..r]);
      TakeMore(taken, ahead, r);
      taken := taken + ahead[..r];
      left := left - r;
    }
    TakenAndAhead(taken, conn.input);
  }

  method HandlePut(conn: Connection, disk: Disk, env: Env, path: Bytes, initial: Bytes, total: nat, role: int)
    returns (rc: int)
    requires !conn.failed && disk.Valid() && disk.place == env.place && NUL !in path && |initial| <= total
    modifies conn, disk`tree
    ensures var t := old(disk.tree);
            var target := if CheckPermission(role, CMD_PUT) then PutTarget(env.place, t, path) else None;
            match target
            case None =>
              && rc == (if conn.failed then -1 else 0)
              && disk.tree == t && conn.input == old(conn.input)
              && Answered(old(conn.output), conn.output,
                          Message(RESP_ERROR, if !CheckPermission(role, CMD_PUT) then PermissionDenied
                                              else if FullPath(env.place, t, path).None? then InvalidPath
                                              else WriteFailed), conn.failed)
            case Some(p) =>
              var got := Min(total - |initial|, |old(conn.input)|);
              && disk.tree == t[p := File(initial + old(conn.input)[..got])]
              && conn.input == old(conn.input)[got..]
              && rc == (if got == total - |initial| && !conn.failed then 0 else -1)
              && Answered(old(conn.output), conn.output,
                          if got == total - |initial| then Message(RESP_OK, FileWritten) else [], conn.failed)
  {
    hide Message, Walk, Split, FullPath, OpenWrite;
    if !CheckPermission(role, CMD_PUT) {
      rc := SendNotice(conn, RESP_ERROR, PermissionDenied);
      return;
    }
    var full := new Byte[STREAM_PATH_SIZE];
    rc := disk.GetFullPath(path, full);
    if rc != 0 {
      rc := SendNotice(conn, RESP_ERROR, InvalidPath);
      return;
    }
    var target := OpenWrite(disk.tree, env.place.cwd, CStr(full[..]));
    if target.None? {
      rc := SendNotice(conn, RESP_ERROR, WriteFailed);
      return;
    }
    var remaining := StoreFile(conn, disk, target.value, initial, total);
    if remaining != 0 {
      return -1;
    }
    rc := SendNotice(conn, RESP_OK, FileWritten);
  }

  /** The open file from fopen to fclose. */
  method StoreFile(conn: Connection, disk: Disk, p: Path, initial: Bytes, total: nat) returns (left: nat)
    requires |initial| <= total
    modifies conn`input, conn`arrivals, disk`tree
    ensures var got := Min(total - |initial|, |old(conn.input)|);
            && left == total - |initial| - got
            && disk.tree == old(disk.tree)[p := File(initial + old(conn.input)[..got])]
            && conn.input == old(conn.input)[got..]
  {
    disk.tree := disk.tree[p := File([])];
    if |initial| > 0 {
      disk.Append(p, initial);
      assert [] + initial == initial;
    }
    assert disk.tree[p] == File(initial);
    left := ReceiveFile(conn, disk, p, total - |initial|);
  }

  // The other commands

  method HandleList(conn: Connection, disk: Disk, env: Env, path: Bytes, role: int) returns (rc: int)
    requires !conn.failed && disk.Valid() && disk.place == env.place && NUL !in path
    modifies conn`output, conn`accepts, conn`failed
    ensures rc == if conn.failed then -1 else 0
    ensures Answered(old(conn.output), conn.output,
                     if !CheckPermission(role, CMD_LIST) then Message(RESP_ERROR, PermissionDenied)
                     else match Listing(env, disk.tree, path)
                       case None => Message(RESP_ERROR, ListFailed)
                       case Some(infos) => Frame(RESP_OK, PackAll(env, infos)), conn.failed)
  {
    hide Message, Frame, Answered, Listing, PackAll;
    if !CheckPermission(role, CMD_LIST) {
      rc := SendNotice(conn, RESP_ERROR, PermissionDenied);
      return;
    }
    var entries := disk.ListDirectory(env, path);
    if entries.None? {
      rc := SendNotice(conn, RESP_ERROR, ListFailed);
      return;
    }
    var body := PackAll(env, entries.value);
    assert body[..|body|] == body;
    rc := SendResponse(conn, RESP_OK, body, |entries.value| * 280);
  }

  method HandleDelete(conn: Connection, disk: Disk, path: Bytes, role: int) returns (rc: int)
    requires !conn.failed && disk.Valid() && NUL !in path
    modifies conn`output, conn`accepts, conn`failed, disk`tree
    ensures rc == if conn.failed then -1 else 0
    ensures var (u, reply) :=
              if !CheckPermission(role, CMD_DELETE) then (old(disk.tree), Message(RESP_ERROR, PermissionDenied))
              else match Files.DeleteFile(disk.place, old(disk.tree), path)
                case None => (old(disk.tree), Message(RESP_ERROR, DeleteFailed))
                case Some(u) => (u, Message(RESP_OK, FileDeleted));
            disk.tree == u && Answered(old(conn.output), conn.output, reply, conn.failed)
  {
    hide Message, Answered, Files.DeleteFile;
    if !CheckPermission(role, CMD_DELETE) {
      rc := SendNotice(conn, RESP_ERROR, PermissionDenied);
      return;
    }
    rc := disk.DeleteFile(path);
    if rc != 0 {
      rc := SendNotice(conn, RESP_ERROR, DeleteFailed);
    } else {
      rc := SendNotice(conn, RESP_OK, FileDeleted);
    }
  }

  method HandleMkdir(conn: Connection, disk: Disk, path: Bytes, role: int) returns (rc: int)
    requires !conn.failed && disk.Valid() && NUL !in path
    modifies conn`output, conn`accepts, conn`failed, disk`tree
    ensures rc == if conn.failed then -1 else 0
    ensures var (u, reply) :=
              if !CheckPermission(role, CMD_MKDIR) then (old(disk.tree), Message(RESP_ERROR, PermissionDenied))
              else match Files.CreateDirectory(disk.place, old(disk.tree), path)
                case None => (old(disk.tree), Message(RESP_ERROR, MkdirFailed))
                case Some(u) => (u, Message(RESP_OK, DirectoryCreated));
            disk.tree == u && Answered(old(conn.output), conn.output, reply, conn.failed)
  {
    hide Message, Answered, Files.CreateDirectory;
    if !CheckPermission(role, CMD_MKDIR) {
      rc := SendNotice(conn, RESP_ERROR, PermissionDenied);
      return;
    }
    rc := disk.CreateDirectory(path);
    if rc != 0 {
      rc := SendNotice(conn, RESP_ERROR, MkdirFailed);
    } else {
      rc := SendNotice(conn, RESP_OK, DirectoryCreated);
    }
  }

  method HandleInfo(conn: Connection, disk: Disk, env: Env, path: Bytes, role: int) returns (rc: int)
    requires !conn.failed && disk.Valid() && disk.place == env.place && NUL !in path
    modifies conn`output, conn`accepts, conn`failed
    ensures rc == if conn.failed then -1 else 0
    ensures Answered(old(conn.output), conn.output,
                     if !CheckPermission(role, CMD_INFO) then Message(RESP_ERROR, PermissionDenied)
                     else match FileInfo(env.place, disk.tree, path)
                       case None => Message(RESP_ERROR, InfoFailed)
                       case Some(info) => Frame(RESP_OK, env.pack(info)), conn.failed)
  {
    hide Message, Frame, Answered, FileInfo;
    if !CheckPermission(role, CMD_INFO) {
      rc := SendNotice(conn, RESP_ERROR, PermissionDenied);
      return;
    }
    var info := disk.GetFileInfo(path);
    if info.None? {
      rc := SendNotice(conn, RESP_ERROR, InfoFailed);
      return;
    }
    var body := env.pack(info.value);
    assert body[..|body|] == body;
    rc := SendResponse(conn, RESP_OK, body, 280);
  }

  // process_request

  /** The switch of process_request, for every command but PUT. */
  method Dispatch(conn: Connection, disk: Disk, store: UserStore, env: Env, req: Request, roles: array<int>, index: nat)
    returns (rc: int)
    requires !conn.failed && disk.Valid() && disk.place == env.place
    requires store.Valid() && env.users == store.Contents()
    requires index < roles.Length && NUL !in req.path
    requires req.cmd != CMD_PUT && !Gated(env, roles[index], req.cmd)
    modifies conn`output, conn`accepts, conn`failed, disk`tree, roles
    ensures var e := Exec(env, old(disk.tree), old(roles[index]), req);
            && disk.tree == e.tree && roles[..] == old(roles[..])[index := e.role]
            && rc == (if e.ok && !conn.failed then 0 else -1)
            && Answered(old(conn.output), conn.output, e.reply, conn.failed)
  {
    hide Message, Frame, Answered, GetReply, Listing, PackAll, FileInfo, Files.DeleteFile, Files.CreateDirectory,
      Login, Welcome, BaseName, CheckPermission, FullPath, PutTarget;
    var role := roles[index];
    if req.cmd == CMD_AUTH {
      if |req.data| >= AUTH_SIZE {
        rc := HandleAuth(conn, store, env, req.data, roles, index);
      } else {
        rc := SendNotice(conn, RESP_ERROR, InvalidAuthenticationData);
      }
    } else if req.cmd == CMD_LOGOUT {
      rc := HandleLogout(conn, roles, index);
    } else if req.cmd == CMD_LIST {
      rc := HandleList(conn, disk, env, req.path, role);
    } else if req.cmd == CMD_GET {
      rc := HandleGet(conn, disk, env, req.path, role);
    } else if req.cmd == CMD_DELETE {
      rc := HandleDelete(conn, disk, req.path, role);
    } else if req.cmd == CMD_MKDIR {
      rc := HandleMkdir(conn, disk, req.path, role);
    } else if req.cmd == CMD_INFO {
      rc := HandleInfo(conn, disk, env, req.path, role);
    } else {
      rc := SendNotice(conn, RESP_ERROR, UnknownCommand);
    }
  }

  /** What is left behind by a request that had this outcome. */
  ghost predicate Left(o: Outcome, tree: Tree, role: int, input: Bytes, rc: int, failed: bool) {
    tree == o.tree && role == o.role && input == o.rest && rc == if o.ok && !failed then 0 else -1
  }

  method ProcessRequest(conn: Connection, disk: Disk, store: UserStore, env: Env,
                        buffer: array<Byte>, size: nat, roles: array<int>, index: nat)
    returns (rc: int)
    requires !conn.failed && disk.Valid() && disk.place == env.place
    requires store.Valid() && env.users == store.Contents()
    requires size <= buffer.Length && index < roles.Length
    modifies conn, disk`tree, roles
    ensures match Decode(old(buffer[..size]))
            case Hangup =>
              rc == -1 && disk.tree == old(disk.tree) && roles[..] == old(roles[..]) &&
              conn.input == old(conn.input) && conn.output == old(conn.output) && !conn.failed
            case Request(req, total, _) =>
              var o := Process(env, old(disk.tree), old(roles[index]), req, total, old(conn.input));
              && Left(o, disk.tree, roles[index], conn.input, rc, conn.failed)
              && roles[..] == old(roles[..])[index := o.role]
              && Answered(old(conn.output), conn.output, o.reply, conn.failed)
  {
    hide Answered, Message, Exec, FullPath, PutTarget, GetU16, GetU32, CheckPermission;
    if size < HEADER_SIZE {
      return -1;
    }
    var frame := buffer[..size];
    var command := frame[0];
    var pathLength := GetU16(frame[1..3]);
    var dataLength := GetU32(frame[3..7]);
    if size < HEADER_SIZE + pathLength {
      return -1;
    }
    if pathLength >= MAX_PATH_LENGTH {
      return -1;
    }
    var start := HEADER_SIZE + pathLength;
    var path := CStr(frame[HEADER_SIZE..start]);
    var initialLength := size - start;
    if initialLength > dataLength {
      initialLength := dataLength;
    }
    var req := Requests.Request(command, path, frame[start..start + initialLength]);
    rc := HandleDecoded(conn, disk, store, env, req, dataLength, roles, index);
  }

  method HandleDecoded(conn: Connection, disk: Disk, store: UserStore, env: Env,
                       req: Request, total: nat, roles: array<int>, index: nat)
    returns (rc: int)
    requires !conn.failed && disk.Valid() && disk.place == env.place
    requires store.Valid() && env.users == store.Contents()
    requires index < roles.Length && NUL !in req.path && |req.data| <= total
    modifies conn, disk`tree, roles
    ensures var o := Process(env, old(disk.tree), old(roles[index]), req, total, old(conn.input));
            && Left(o, disk.tree, roles[index], conn.input, rc, conn.failed)
            && roles[..] == old(roles[..])[index := o.role]
            && Answered(old(conn.output), conn.output, o.reply, conn.failed)
  {
    hide Answered, Message, FullPath, PutTarget, CheckPermission, GetReply, Listing, PackAll, FileInfo,
      Files.DeleteFile, Files.CreateDirectory, Login, Welcome, BaseName, Frame;
    var role := roles[index];
    if Gated(env, role, req.cmd) {
      rc := SendNotice(conn, RESP_AUTH_REQUIRED, AuthenticationRequired);
    } else if req.cmd == CMD_PUT {
      PutTargetHasFullPath(env.place, disk.tree, req.path);
      rc := HandlePut(conn, disk, env, req.path, req.data, total, role);
    } else {
      rc := Dispatch(conn, disk, store, env, req, roles, index);
    }
  }

  lemma PutTargetHasFullPath(place: Place, t: Tree, path: Bytes)
    ensures PutTarget(place, t, path).Some? ==> FullPath(place, t, path).Some?
  {
    hide FullPath, OpenWrite;
  }
}
