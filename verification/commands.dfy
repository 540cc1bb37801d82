/** Every command from the outside: who may give it, what it does to the tree, and
    the bytes of the reply, in the numbers and texts of the protocol. */
module Commands {
  import opened CBytes
  import opened TextFiles
  import opened Paths
  import opened Resolve
  import opened Files
  import opened Users
  import opened Requests
  import opened Streams
  import opened Outcomes

  /** The numbers of the protocol and the sizes of the server's buffers and tables. */
  lemma Numbers()
    ensures [CMD_LIST, CMD_GET, CMD_PUT, CMD_DELETE] == [1, 2, 3, 4]
    ensures [CMD_MKDIR, CMD_INFO, CMD_AUTH, CMD_LOGOUT] == [5, 6, 7, 8]
    ensures [RESP_OK, RESP_ERROR, RESP_AUTH_REQUIRED] == [0, 1, 2] && [ROLE_GUEST, ROLE_USER, ROLE_ADMIN] == [0, 1, 2]
    ensures BUFFER_SIZE == 4096 && MAX_PATH_LENGTH == STREAM_PATH_SIZE == 1024 && MAX_PATH_SIZE == 2048
    ensures MAX_USERS == MAX_ENTRIES == 100 && AUTH_SIZE == 128
  {
  }

  /** The client is a guest and the server wants it to log in first. */
  predicate MustLogIn(env: Env, role: int, cmd: Byte) {
    env.enableAuth && role == 0 && cmd != 7
  }

  /** Guests may list, get and describe, users and administrators do everything, and
      any other role nothing. */
  predicate Allowed(role: int, cmd: Byte) {
    role == 1 || role == 2 || (role == 0 && cmd in {1, 2, 6})
  }

  function Reply(status: Byte, text: string): Bytes {
    Frame(status, Ascii(text))
  }

  function Failed(t: Tree, role: int, text: string): Effect {
    Effect(true, Reply(1, text), t, role)
  }

  /** Five bytes and the body: the status, and the length with its high byte first. */
  lemma FrameLayout(status: Byte, body: Bytes)
    ensures var f := Frame(status, body);
            && |f| == 5 + |body| && f[0] == status && f[5..] == body
            && BigEndian(f[1..5]) == |body| % 0x1_0000_0000
  {
    hide U32;
    NetworkOrder(|body| % UINT32_SIZE);
    assert Frame(status, body)[1..5] == U32(|body| % UINT32_SIZE);
  }

  /** Seven bytes, the path and the data: the command, and both lengths with their
      high bytes first. */
  lemma RequestLayout(req: Request)
    ensures var s, n := Encode(req), 7 + |req.path|;
            && |s| == n + |req.data| && s[0] == req.cmd && s[7..n] == req.path && s[n..] == req.data
            && BigEndian(s[1..3]) == |req.path| % 0x1_0000 && BigEndian(s[3..7]) == |req.data| % 0x1_0000_0000
  {
    hide U16, U32;
    NetworkOrder(|req.path| % 0x1_0000);
    NetworkOrder(|req.data| % UINT32_SIZE);
    var len, size := U16(|req.path| % 0x1_0000), U32(|req.data| % UINT32_SIZE);
    HeaderFields(req.cmd, len, size);
    var head := [req.cmd] + len + size;
    assert Encode(req) == head + (req.path + req.data);
    assert Encode(req)[..7] == head;
    assert Encode(req)[1..3] == Encode(req)[..7][1..3] && Encode(req)[3..7] == Encode(req)[..7][3..7];
  }

  /** What follows the header of the reply that asks to log in, read as the header of
      the next reply: no status, and more than a gigabyte of body. */
  lemma TextReadAsHeader()
    ensures var rest := Reply(2, "Authentication required")[5..];
            |rest| == 23 && rest[0] == 65 && BigEndian(rest[1..5]) == 0x7574_6865
  {
    FrameLayout(2, Ascii("Authentication required"));
    FrontOfText();
    hide Frame, Ascii;
    BigEndianAppend([117, 116], [104, 101]);
    TwoBytes([117, 116]);
    TwoBytes([104, 101]);
    assert [117, 116] + [104, 101] == [117, 116, 104, 101];
    assert Ascii("Authentication required")[1..5] == [117, 116, 104, 101];
  }

  lemma FrontOfText()
    ensures var s := Ascii("Authentication required");
            |s| == 23 && s[0] == 65 && s[1] == 117 && s[2] == 116 && s[3] == 104 && s[4] == 101
  {
    assert "Authentication required"[0] == 'A';
    assert "Authentication required"[1] == 'u';
    assert "Authentication required"[2] == 't';
    assert "Authentication required"[3] == 'h';
    assert "Authentication required"[4] == 'e';
  }

  lemma StatusOf(status: Byte, n: Notice)
    ensures Message(status, n) == Frame(status, Words(n)) && Message(status, n) != [] && Message(status, n)[0] == status
  {
    hide Words;
    FrameLayout(status, Words(n));
  }

  /** Asking to log in is answered to a guest of a server with authentication, to
      every command but AUTH, and to nobody else; nothing else happens then, and the
      reply tells nothing of the tree. */
  lemma AskedExactly(env: Env, t: Tree, role: int, req: Request)
    ensures var e := Exec(env, t, role, req);
            && e.reply != [] && (e.reply[0] == 2 <==> MustLogIn(env, role, req.cmd))
            && (MustLogIn(env, role, req.cmd) ==> e == Effect(true, Reply(2, "Authentication required"), t, role))
  {
    hide GetReply, Listing, FileInfo, Login, BaseName, PackAll, FullPath, PutTarget, DeleteFile, CreateDirectory,
      CheckPermission, Message, Frame, Words, Welcome;
    assert Words(AuthenticationRequired) == Ascii("Authentication required") by {
      NoticeText();
    }
    forall status: Byte, n: Notice ensures Message(status, n) == Frame(status, Words(n)) && Message(status, n) != []
      ensures Message(status, n)[0] == status
    {
      StatusOf(status, n);
    }
    forall body: Bytes ensures Frame(RESP_OK, body) != [] && Frame(RESP_OK, body)[0] == 0 {
      FrameLayout(RESP_OK, body);
    }
    GetStarts(env, t, req.path);
  }

  lemma NoticeText()
    ensures Words(AuthenticationRequired) == Ascii("Authentication required")
  {
  }

  lemma GetStarts(env: Env, t: Tree, path: Bytes)
    ensures GetReply(env, t, path).1 != [] && GetReply(env, t, path).1[0] in {0, 1}
  {
    hide FullPath, FileInfo, Stat, Message, Streamed;
    StatusOf(RESP_ERROR, ReadFailed);
  }

  /** A command on files is refused exactly to the roles that may not give it, and
      nothing happens then. */
  lemma RefusedToRole(env: Env, t: Tree, role: int, req: Request)
    requires !MustLogIn(env, role, req.cmd) && 1 <= req.cmd <= 6
    ensures Exec(env, t, role, req).reply == Reply(1, "Permission denied") <==> !Allowed(role, req.cmd)
    ensures !Allowed(role, req.cmd) ==> Exec(env, t, role, req) == Failed(t, role, "Permission denied")
  {
    hide GetReply, Listing, FileInfo, Login, BaseName, PackAll, FullPath, PutTarget, DeleteFile, CreateDirectory, Frame,
      Words, Ascii;
    assert Words(PermissionDenied) == Ascii("Permission denied") by {
      DeniedText();
    }
    forall status: Byte, n: Notice | n != PermissionDenied
      ensures Message(status, n) != Reply(1, "Permission denied")
    {
      FrameLayout(status, Words(n));
      FrameLayout(1, Ascii("Permission denied"));
    }
    forall body: Bytes ensures Frame(RESP_OK, body) != Reply(1, "Permission denied") {
      FrameLayout(RESP_OK, body);
      FrameLayout(1, Ascii("Permission denied"));
    }
    GetIsNotDenied(env, t, req.path);
  }

  lemma DeniedText()
    ensures Words(PermissionDenied) == Ascii("Permission denied")
  {
  }

  lemma GetIsNotDenied(env: Env, t: Tree, path: Bytes)
    ensures GetReply(env, t, path).1 != Reply(1, "Permission denied")
  {
    hide FullPath, FileInfo, Stat, Streamed, Frame, Ascii;
    FrameLayout(RESP_ERROR, Words(ReadFailed));
    FrameLayout(1, Ascii("Permission denied"));
  }

  lemma ListCommand(env: Env, t: Tree, role: int, req: Request, top: Path)
    requires Served(env.place, t) && RootPath(env.place, t) == Some(top) && top != []
    requires Clean(env.place, t, req.path) && Whole(env.place, t, req.path)
    requires req.cmd == 1 && !MustLogIn(env, role, 1) && Allowed(role, 1)
    requires var d := NodeAt(env.place, t, req.path, top);
             d.Some? && t[d.value].Dir? ==> NamesFit(d.value, env.readdir(t, d.value))
    ensures var d := NodeAt(env.place, t, req.path, top);
            var e := Exec(env, t, role, req);
            if d.Some? && t[d.value].Dir?
            then exists body :: e == Effect(true, Frame(0, body), t, role) && Lists(env, t, d.value, body)
            else e == Failed(t, role, "Failed to list directory")
  {
    hide Listing, PackAll, Frame, Served, RootPath, Clean, Whole, NodeAt, Lists, NamesFit, ListEntries, Render, Ascii;
    ListExactly(env, t, req.path, top);
    var d := NodeAt(env.place, t, req.path, top);
    if d.Some? && t[d.value].Dir? {
      ServedIsTree(env.place, t);
      PackedListing(env, t, d.value);
    }
  }

  lemma ServedIsTree(place: Place, t: Tree)
    requires Served(place, t)
    ensures WellFormed(t)
  {
  }

  lemma GetCommand(env: Env, t: Tree, role: int, req: Request, top: Path)
    requires Served(env.place, t) && RootPath(env.place, t) == Some(top) && top != []
    requires Clean(env.place, t, req.path) && Short(env.place, t, req.path)
    requires req.cmd == 2 && !MustLogIn(env, role, 2) && Allowed(role, 2)
    ensures var p := NodeAt(env.place, t, req.path, top);
            Exec(env, t, role, req) ==
            if p.Some? && t[p.value].File? then Effect(true, Frame(0, t[p.value].content), t, role)
            else Failed(t, role, "Failed to read file")
  {
    hide GetReply, Header, Served, RootPath, Clean, Short, NodeAt, Ascii;
    GetExactly(env, t, req.path, top);
  }

  lemma PutCommand(env: Env, t: Tree, role: int, req: Request, top: Path)
    requires Served(env.place, t) && RootPath(env.place, t) == Some(top) && top != []
    requires Clean(env.place, t, req.path) && Short(env.place, t, req.path)
    requires req.cmd == 3 && !MustLogIn(env, role, 3) && Allowed(role, 3)
    ensures var w := Locate(env.place, t, req.path);
            var e := Exec(env, t, role, req);
            if LeadsBelow(w, top) && (w.Missing? || (w.at in t && t[w.at].File?))
            then e == Effect(true, Reply(0, "File written successfully"), t[w.at := File(req.data)], role)
            else e == Failed(t, role, if FullPath(env.place, t, req.path).None? then "Invalid path"
                                      else "Failed to write file")
  {
    hide Served, RootPath, Clean, Short, Locate, FullPath, PutTarget, Frame, Ascii;
    PutTargetRefines(env.place, t, req.path, top);
    TargetHasPath(env.place, t, req.path);
  }

  lemma TargetHasPath(place: Place, t: Tree, path: Bytes)
    ensures PutTarget(place, t, path).Some? ==> FullPath(place, t, path).Some?
  {
    hide FullPath, OpenWrite;
  }

  lemma DeleteCommand(env: Env, t: Tree, role: int, req: Request, top: Path)
    requires Served(env.place, t) && RootPath(env.place, t) == Some(top) && top != []
    requires Clean(env.place, t, req.path) && Whole(env.place, t, req.path)
    requires req.cmd == 4 && !MustLogIn(env, role, 4) && Allowed(role, 4)
    ensures var p := NodeAt(env.place, t, req.path, top);
            Exec(env, t, role, req) ==
            if p.Some? && (t[p.value].File? || NothingIn(t, p.value))
            then Effect(true, Reply(0, "File deleted successfully"), t - {p.value}, role)
            else Failed(t, role, "Failed to delete file")
  {
    hide DeleteFile, Served, RootPath, Clean, Whole, NodeAt, NothingIn, Frame, Ascii;
    DeleteExactly(env.place, t, req.path, top);
  }

  lemma MkdirCommand(env: Env, t: Tree, role: int, req: Request, top: Path)
    requires Served(env.place, t) && RootPath(env.place, t) == Some(top) && top != []
    requires Clean(env.place, t, req.path) && Whole(env.place, t, req.path)
    requires req.cmd == 5 && !MustLogIn(env, role, 5) && Allowed(role, 5)
    ensures var w := Locate(env.place, t, req.path);
            Exec(env, t, role, req) ==
            if req.path != [] && w.Missing? && top <= w.at
            then Effect(true, Reply(0, "Directory created successfully"), t[w.at := Dir], role)
            else Failed(t, role, "Failed to create dir")
  {
    hide CreateDirectory, Served, RootPath, Clean, Whole, Locate, Frame, Ascii;
    MkdirExactly(env.place, t, req.path, top);
  }

  lemma InfoCommand(env: Env, t: Tree, role: int, req: Request, top: Path)
    requires Served(env.place, t) && RootPath(env.place, t) == Some(top) && top != []
    requires Clean(env.place, t, req.path) && Whole(env.place, t, req.path)
    requires req.cmd == 6 && !MustLogIn(env, role, 6) && Allowed(role, 6)
    ensures var p := NodeAt(env.place, t, req.path, top);
            Exec(env, t, role, req) ==
            if p.Some? then Effect(true, Frame(0, env.pack(Info(BaseName(req.path), p.value, t[p.value]))), t, role)
            else Failed(t, role, "Failed to get file info")
  {
    hide FileInfo, Served, RootPath, Clean, Whole, NodeAt, Frame, Ascii, BaseName;
    InfoExactly(env.place, t, req.path, top);
  }

  /** AUTH reads the name at the front of 128 bytes and the password in their middle,
      and is the only command that the gate lets a guest give. */
  lemma AuthCommand(env: Env, t: Tree, role: int, req: Request)
    requires req.cmd == 7
    ensures var e := Exec(env, t, role, req);
            if |req.data| < 128 then e == Failed(t, role, "Invalid authentication data")
            else
              match Authenticate(env.users, CStr(req.data), CStr(req.data[64..]))
              case None => e == Failed(t, role, "Authentication failed")
              case Some(r) =>
                e == Effect(true, Frame(0, Cut(Ascii("Authenticated as ") + CStr(req.data) + Ascii(" (role ") +
                                               PrintInt(r) + Ascii(")"), 63)), t, r)
  {
    hide Authenticate, Frame, PrintInt, Ascii, CStr;
  }

  lemma OtherCommands(env: Env, t: Tree, role: int, req: Request)
    requires !MustLogIn(env, role, req.cmd) && (req.cmd == 0 || req.cmd >= 8)
    ensures Exec(env, t, role, req) ==
            if req.cmd == 8 then Effect(true, Reply(0, "Logged out"), t, 0) else Failed(t, role, "Unknown command")
  {
    hide Frame, Ascii;
  }
}
