/** From the client's file to the server's and back. */
module RoundTrip {
  import opened CBytes
  import opened Paths
  import opened Resolve
  import opened Answers
  import opened Stability
  import opened Hashing
  import opened Users
  import opened Sockets
  import opened Requests
  import opened Streams
  import opened Client
  import opened UserStores
  import opened FileOps
  import opened Server

  function PutOf(path: Bytes, content: Bytes): Request {
    Requests.Request(CMD_PUT, path, content)
  }

  function GetOf(path: Bytes): Request {
    Requests.Request(CMD_GET, path, [])
  }

  lemma NoticeStatus(status: Byte, n: Notice)
    ensures Message(status, n) != [] && Message(status, n)[0] == status
  {
    hide Words, U32;
  }

  /** A PUT that opens no file is not answered with success. */
  lemma RefusedPut(env: Env, t: Tree, role: int, req: Request)
    requires req.cmd == CMD_PUT && PutOpens(env, t, role, req).None?
    ensures !SaysOk(Exec(env, t, role, req).reply)
  {
    hide Message, FullPath, OpenWrite, Walk;
    NoticeStatus(RESP_AUTH_REQUIRED, AuthenticationRequired);
    NoticeStatus(RESP_ERROR, PermissionDenied);
    NoticeStatus(RESP_ERROR, InvalidPath);
    NoticeStatus(RESP_ERROR, WriteFailed);
  }

  /** The server answers a PUT with success exactly when a file was opened; then
      the file holds the content and the stream is at the next request. */
  lemma AcceptedPut(env: Env, t: Tree, role: int, path: Bytes, content: Bytes, after: Bytes)
    requires Sendable(PutOf(path, content))
    ensures var o := HandleOne(env, t, role, Encode(PutOf(path, content)) + after);
            var p := PutOpens(env, t, role, PutOf(path, content));
            && (p.Some? ==> o == Outcome(true, Message(RESP_OK, FileWritten), t[p.value := File(content)], role, after))
            && (SaysOk(o.reply) <==> p.Some?)
  {
    hide Encode, Exec, PutTarget, Message, Collect;
    var req := PutOf(path, content);
    NoticeStatus(RESP_OK, FileWritten);
    WholeRequest(env, t, role, req, after);
    if PutOpens(env, t, role, req).Some? {
      PutOpensExec(env, t, role, req);
    } else {
      CollectEncoded(req, after);
      var c := Collect(Encode(req) + after);
      if c.Request? {
        assert PutOpens(env, t, role, c.req).None?;
        RefusedPut(env, t, role, c.req);
      }
    }
  }

  /** A whole PUT request changes nothing outside the root, whatever its data,
      exactly under the condition of PutIsContained. */
  lemma PutRequestStaysBelow(env: Env, t: Tree, role: int, path: Bytes, top: Path)
    requires Served(env.place, t) && RootPath(env.place, t) == Some(top) && Sendable(PutOf(path, []))
    requires PutOpens(env, t, role, PutOf(path, [])).Some?
    ensures var s := FullPathIn(env.place, t, path, STREAM_PATH_SIZE).value;
            (forall content :: |content| < UINT32_SIZE ==>
               SameOutside(t, HandleOne(env, t, role, Encode(PutOf(path, content))).tree, top)) <==>
            top == [] ||
            if EndsInLink(t, env.place.cwd, s)
            then !LinkEnd(t, env.place.cwd, s).Fail? && top <= LinkEnd(t, env.place.cwd, s).at
            else |Render(top)| < STREAM_PATH_SIZE
  {
    hide Served, FullPath, RootPath, PutTarget, Render, Absolute, Walk, Split, EndsInLink, LinkEnd, HandleOne, Encode,
      Gated, CheckPermission;
    var p := PutTarget(env.place, t, path).value;
    PutIsContained(env.place, t, path, top, p);
    forall content | |content| < UINT32_SIZE
      ensures HandleOne(env, t, role, Encode(PutOf(path, content))).tree == t[p := File(content)]
    {
      PutRequestWrites(env, t, role, path, content);
    }
    PutChangesTarget(t, p, top);
    if !(top <= p) {
      assert |[SLASH]| < UINT32_SIZE;
      SomePutShows(t, p, top);
    }
  }

  lemma SomePutShows(t: Tree, p: Path, top: Path)
    requires !(top <= p)
    ensures exists content :: |content| < UINT32_SIZE && !SameOutside(t, t[p := File(content)], top)
  {
    var u, v := t[p := File([])], t[p := File([SLASH])];
    assert u[p] != v[p] && p in u && p in v;
    assert !SameOutside(t, t[p := File([])], top) || !SameOutside(t, t[p := File([SLASH])], top);
  }

  lemma PutRequestWrites(env: Env, t: Tree, role: int, path: Bytes, content: Bytes)
    requires Sendable(PutOf(path, content)) && PutOpens(env, t, role, PutOf(path, [])).Some?
    ensures HandleOne(env, t, role, Encode(PutOf(path, content))).tree ==
            t[PutTarget(env.place, t, path).value := File(content)]
  {
    hide HandleOne, Encode, PutTarget, Gated, CheckPermission;
    assert PutOpens(env, t, role, PutOf(path, content)) == PutOpens(env, t, role, PutOf(path, []));
    assert Encode(PutOf(path, content)) + [] == Encode(PutOf(path, content));
    AcceptedPut(env, t, role, path, content, []);
  }

  /** The file that a PUT of this path opens, if any, is at or below the root, and
      the pathnames fit the 1024-byte buffers. */
  ghost predicate Settled(place: Place, t: Tree, path: Bytes, top: Path) {
    PutTarget(place, t, path).Some? ==>
      && top <= PutTarget(place, t, path).value && |Render(PutTarget(place, t, path).value)| < STREAM_PATH_SIZE
      && FullPath(place, t, path).Some? && |FullPath(place, t, path).value| < STREAM_PATH_SIZE
  }

  /** What a PUT has written is what a GET of the same path then finds, also when
      the path ends in a link. */
  lemma GetFindsPut(env: Env, t: Tree, path: Bytes, content: Bytes, top: Path, p: Path)
    requires Served(env.place, t) && RootPath(env.place, t) == Some(top) && top != []
    requires top in t && t[top].Dir?
    requires Settled(env.place, t, path, top) && PutTarget(env.place, t, path) == Some(p)
    ensures GetContent(env, t[p := File(content)], path) == Some(content)
    ensures GetFits(env, t[p := File(content)], path)
  {
    hide Walk, Split, LastSlash, WellFormed, PutTarget, Stat, FullPath, RootPath, Render;
    TargetNeedsPath(env.place, t, path, top);
    PutIsFound(env.place, t, path, top, p, content);
  }

  lemma TargetNeedsPath(place: Place, t: Tree, path: Bytes, top: Path)
    requires Served(place, t) && RootPath(place, t) == Some(top) && top != []
    requires top in t && t[top].Dir?
    requires PutTarget(place, t, path).Some?
    requires FullPath(place, t, path).Some? && |FullPath(place, t, path).value| < STREAM_PATH_SIZE
    ensures path != []
  {
    hide Walk, Split, WellFormed, Absolute;
    if path == [] {
      var q := ExistingShape(place, t, path, top);
      ResolveNode(t, place.cwd, q);
      assert false;
    }
  }

  /** PUT then GET over the wire: if the PUT is answered with success, a GET of
      the same path, in any session that may read, is answered with one frame
      whose body is the content that was put. */
  lemma PutThenGet(env: Env, t: Tree, role: int, path: Bytes, content: Bytes, reader: int, top: Path)
    requires Served(env.place, t) && RootPath(env.place, t) == Some(top) && top != []
    requires top in t && t[top].Dir? && Settled(env.place, t, path, top)
    requires Sendable(PutOf(path, content))
    requires SaysOk(HandleOne(env, t, role, Encode(PutOf(path, content))).reply)
    requires !Gated(env, reader, CMD_GET) && CheckPermission(reader, CMD_GET)
    ensures MayWrite(role)
    ensures var u := HandleOne(env, t, role, Encode(PutOf(path, content))).tree;
            HandleOne(env, u, reader, Encode(GetOf(path))) == Outcome(true, Frame(RESP_OK, content), u, reader, [])
  {
    hide Encode, PutTarget, Message, Collect, HandleOne, GetContent, Settled, Served, RootPath, Frame, GetFits;
    assert Encode(PutOf(path, content)) + [] == Encode(PutOf(path, content));
    AcceptedPut(env, t, role, path, content, []);
    var p := PutTarget(env.place, t, path).value;
    WritersAreUsersAndAdmins(role, CMD_PUT);
    GetFindsPut(env, t, path, content, top, p);
    GetAnswered(env, t[p := File(content)], reader, path, content);
  }

  lemma GetAnswered(env: Env, u: Tree, reader: int, path: Bytes, content: Bytes)
    requires Sendable(GetOf(path)) && |content| < UINT32_SIZE
    requires GetFits(env, u, path) && GetContent(env, u, path) == Some(content)
    requires !Gated(env, reader, CMD_GET) && CheckPermission(reader, CMD_GET)
    ensures HandleOne(env, u, reader, Encode(GetOf(path))) == Outcome(true, Frame(RESP_OK, content), u, reader, [])
  {
    hide Encode, HandleOne, GetContent, GetFits, GetReply, Header;
    assert Encode(GetOf(path)) + [] == Encode(GetOf(path));
    WholeRequest(env, u, reader, GetOf(path), []);
    GetAnswersFile(env, u, path);
  }

  // Logging in

  /** The server reads the credentials that were given: always when both are
      shorter than 63 bytes, with 63 bytes when the uninitialised byte is NUL. */
  predicate Legible(name: Bytes, password: Bytes, last: Byte, final: Byte) {
    && CStr(AuthMessage(name, password, last, final)) == name
    && CStr(AuthMessage(name, password, last, final)[64..]) == password
  }

  /** The AUTH request of a client is carried out as a login with the credentials
      it was given: the session gets that user's role, or keeps the one it had. */
  lemma LoginOverWire(env: Env, t: Tree, role: int, name: Bytes, password: Bytes, last: Byte, final: Byte, rest: Bytes)
    requires Legible(name, password, last, final)
    ensures HandleOne(env, t, role, Encode(AuthOf(name, password, last, final)) + rest) ==
            match Users.Authenticate(env.users, name, password)
            case Some(r) => Outcome(true, Frame(RESP_OK, Welcome(name, r)), t, r, rest)
            case None => Outcome(true, Message(RESP_ERROR, AuthenticationFailed), t, role, rest)
  {
    hide Encode, HandleOne, Message, Frame, Welcome, Users.Authenticate, AuthMessage, CStr;
    var req := AuthOf(name, password, last, final);
    assert Login(env, req.data) == Users.Authenticate(env.users, name, password);
    WholeRequest(env, t, role, req, rest);
  }

  /** From add_user to a session: after any removals of other users, a save and
      a restart, the new user's AUTH request gives the session the role the user
      was added with. */
  lemma AddedUserLogsIn(env: Env, t: Tree, was: int, us: seq<User>, name: Bytes, password: Bytes, role: int,
                        salt: Bytes, gone: seq<Bytes>, last: Byte, final: Byte, rest: Bytes)
    requires forall i :: 0 <= i < |us| ==> Storable(us[i])
    requires PlainField(name, NAME_ROOM) && name[0] != HASH_SIGN && |salt| == SALT_SIZE
    requires Legible(name, password, last, final) && -0x8000_0000 <= role < 0x8000_0000
    requires Added(us, name, password, role, salt).Some? && name !in gone
    requires env.users == LoadFrom(SaveText(RemovedAll(Added(us, name, password, role, salt).value, gone)), 0)
    ensures var o := HandleOne(env, t, was, Encode(AuthOf(name, password, last, final)) + rest);
            o.ok && o.role == role && o.tree == t && o.rest == rest
  {
    hide HandleOne, Encode, Added, RemovedAll, LoadFrom, SaveText, Users.Authenticate, Frame, AuthMessage, Legible;
    CredentialsPersist(us, name, password, role, salt, gone);
    LoginOverWire(env, t, was, name, password, last, final, rest);
  }

  /** Of the new user's AUTH requests exactly those are granted whose password has the
      same hash, with the user's salt, as the one given to add_user. */
  lemma OnlyThatPasswordLogsIn(env: Env, t: Tree, was: int, us: seq<User>, name: Bytes, password: Bytes, role: int,
                               salt: Bytes, gone: seq<Bytes>, tried: Bytes, last: Byte, final: Byte, rest: Bytes)
    requires forall i :: 0 <= i < |us| ==> Storable(us[i])
    requires PlainField(name, NAME_ROOM) && name[0] != HASH_SIGN && |salt| == SALT_SIZE
    requires Legible(name, tried, last, final) && -0x8000_0000 <= role < 0x8000_0000
    requires Added(us, name, password, role, salt).Some? && name !in gone
    requires env.users == LoadFrom(SaveText(RemovedAll(Added(us, name, password, role, salt).value, gone)), 0)
    ensures HandleOne(env, t, was, Encode(AuthOf(name, tried, last, final)) + rest) ==
            if Hash(tried, Hex(salt)) == Hash(password, Hex(salt))
            then Outcome(true, Frame(RESP_OK, Welcome(name, role)), t, role, rest)
            else Outcome(true, Message(RESP_ERROR, AuthenticationFailed), t, was, rest)
  {
    hide HandleOne, Encode, Added, RemovedAll, LoadFrom, SaveText, Users.Authenticate, Frame, AuthMessage, Legible,
      Welcome, Message, Hash, Hex;
    PasswordDecides(us, name, password, role, salt, gone, tried);
    LoginOverWire(env, t, was, name, tried, last, final, rest);
  }

  lemma FrameParts(content: Bytes)
    requires |content| < UINT32_SIZE
    ensures var f := Frame(RESP_OK, content);
            && |f| == 5 + |content| && SaysOk(f) && GetU32(f[1..5]) == |content| && f[5..5 + |content|] == content
  {
    hide U32, GetU32;
    U32RoundTrip(|content|);
    assert Frame(RESP_OK, content)[1..5] == U32(|content|);
  }

  /** End to end: a client puts content b, and when it has seen the success
      message a client gets the same path. What is then in the local file, for
      every way the bodies are split, is b. */
  method PutGetEndToEnd(putter: Connection, getter: Connection, env: Env, t: Tree, role: int, reader: int, top: Path,
                        path: Bytes, b: Bytes) returns (stored: bool, fetched: bool, local: Bytes)
    requires !putter.failed && !getter.failed && putter != getter
    requires putter.input == HandleOne(env, t, role, Encode(PutOf(path, b))).reply
    requires getter.input == HandleOne(env, HandleOne(env, t, role, Encode(PutOf(path, b))).tree, reader,
                                       Encode(GetOf(path))).reply
    requires Served(env.place, t) && RootPath(env.place, t) == Some(top) && top != []
    requires top in t && t[top].Dir? && Settled(env.place, t, path, top) && Sendable(PutOf(path, b))
    requires !Gated(env, reader, CMD_GET) && CheckPermission(reader, CMD_GET)
    modifies putter, getter
    ensures stored ==> putter.output == old(putter.output) + Encode(PutOf(path, b))
    ensures stored && fetched ==> getter.output == old(getter.output) + Encode(GetOf(path)) && local == b
    ensures (&& stored && old(getter.accepts) == [] && ArrivesWhole(old(getter.arrivals), 5)
             && NoneInterrupted(old(getter.arrivals))) ==> fetched
  {
    hide HandleOne, Encode, Settled, RootPath, Frame, WellFormed, GetU32;
    stored := PutFile(putter, path, b);
    if !stored {
      return false, false, [];
    }
    PutThenGet(env, t, role, path, b, reader, top);
    FrameParts(b);
    fetched, local := GetFile(getter, path);
  }

  // Both ends running

  lemma SuccessMessage()
    ensures var f := Message(RESP_OK, FileWritten);
            |f| == 5 + GetU32(f[1..5]) && SaysOk(f)
  {
    hide Words;
    FrameParts(Words(FileWritten));
  }

  /** The code of both ends: the client's upload is sent, handled by the server and
      acknowledged, and its download of the same path likewise. What is then in the
      local file is what was uploaded, for every schedule of every read and write. */
  method UploadAndDownload(client: Connection, server: Connection, disk: Disk, store: UserStore, env: Env,
                           roles: array<int>, index: nat, path: Bytes, b: Bytes, ghost top: Path)
    returns (stored: bool, fetched: bool, local: Bytes)
    requires client != server && !client.failed && !server.failed
    requires client.input == [] && client.output == [] && server.input == [] && server.output == []
    requires disk.Valid() && disk.place == env.place && store.Valid() && env.users == store.Contents()
    requires index < roles.Length
    requires RootPath(env.place, disk.tree) == Some(top) && top != [] && top in disk.tree && disk.tree[top].Dir?
    requires Settled(env.place, disk.tree, path, top) && Sendable(PutOf(path, b))
    modifies client, server, disk`tree, roles
    ensures stored ==>
              var target := PutTarget(env.place, old(disk.tree), path);
              && MayWrite(old(roles[index])) && target.Some?
              && disk.tree == old(disk.tree)[target.value := File(b)] && roles[..] == old(roles[..])
    ensures stored && fetched ==> local == b
  {
    hide HandleOne, Encode, Settled, RootPath, Frame, WellFormed, GetU32, Message, PutTarget, MayWrite, Gated,
      CheckPermission;
    ghost var t, role := disk.tree, roles[index];
    stored, fetched, local := false, false, [];
    var ok := SendPut(client, path, b);
    if !ok {
      return;
    }
    server.input := client.output;
    assert server.input == Encode(PutOf(path, b));
    var rc := HandleClient(server, disk, store, env, roles, index);
    if rc != 0 {
      return;
    }
    assert server.output == HandleOne(env, t, role, Encode(PutOf(path, b))).reply;
    client.input := server.output;
    var buffer := new Byte[BUFFER_SIZE];
    var size;
    rc, size := ReceiveResponse(client, buffer);
    if rc != 0 {
      return;
    }
    stored := true;
    ghost var u := disk.tree;
    PutWasStored(env, t, role, path, b, top);
    assert server.input == [] && client.input == [] && roles[index] == role;
    assert roles[..] == old(roles[..]);
    fetched, local := Download(client, server, disk, store, env, roles, index, path, b);
  }

  /** What a client knows that has seen the success message. */
  lemma PutWasStored(env: Env, t: Tree, role: int, path: Bytes, b: Bytes, top: Path)
    requires Served(env.place, t) && RootPath(env.place, t) == Some(top) && top != []
    requires top in t && t[top].Dir? && Settled(env.place, t, path, top) && Sendable(PutOf(path, b))
    requires SaysOk(HandleOne(env, t, role, Encode(PutOf(path, b))).reply)
    ensures var o := HandleOne(env, t, role, Encode(PutOf(path, b)));
            && MayWrite(role) && PutTarget(env.place, t, path).Some?
            && o == Outcome(true, Message(RESP_OK, FileWritten),
                            t[PutTarget(env.place, t, path).value := File(b)], role, [])
            && |o.reply| == 5 + GetU32(o.reply[1..5])
            && HandleOne(env, o.tree, role, Encode(GetOf(path))) == Outcome(true, Frame(RESP_OK, b), o.tree, role, [])
  {
    hide HandleOne, Encode, Settled, RootPath, Frame, GetU32, Message, PutTarget, Served, Collect;
    assert Encode(PutOf(path, b)) + [] == Encode(PutOf(path, b));
    AcceptedPut(env, t, role, path, b, []);
    WritersAreUsersAndAdmins(role, CMD_PUT);
    SuccessMessage();
    PutThenGet(env, t, role, path, b, role, top);
  }

  /** The download, when the server would answer it with the content b. */
  method Download(client: Connection, server: Connection, disk: Disk, store: UserStore, env: Env,
                  roles: array<int>, index: nat, path: Bytes, ghost b: Bytes)
    returns (fetched: bool, local: Bytes)
    requires client != server && !client.failed && !server.failed && client.input == [] && server.input == []
    requires disk.Valid() && disk.place == env.place && store.Valid() && env.users == store.Contents()
    requires index < roles.Length && |b| < UINT32_SIZE
    requires HandleOne(env, disk.tree, roles[index], Encode(GetOf(path))) ==
             Outcome(true, Frame(RESP_OK, b), disk.tree, roles[index], [])
    modifies client, server, disk`tree, roles
    ensures disk.tree == old(disk.tree) && roles[..] == old(roles[..])
    ensures fetched ==> local == b
  {
    assert RequestHead(CMD_GET, path, 0) + [] == Encode(GetOf(path));
    hide HandleOne, Encode, Frame, WellFormed, GetU32;
    fetched, local := false, [];
    var asked, answered := |client.output|, |server.output|;
    var rc := SendRequest(client, CMD_GET, path, [], 0);
    if rc != 0 {
      return;
    }
    server.input := client.output[asked..];
    assert server.input == Encode(GetOf(path));
    rc := HandleClient(server, disk, store, env, roles, index);
    assert roles[..] == old(roles[..]);
    if rc != 0 {
      return;
    }
    client.input := server.output[answered..];
    assert client.input == Frame(RESP_OK, b);
    FrameParts(b);
    fetched, local := FetchFile(client);
  }
}
