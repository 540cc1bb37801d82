/** The request-level meaning of the protocol: what one whole request does to
    the tree and to the session's role, and what is answered. */
module Requests {
  import opened CBytes
  import opened TextFiles
  import opened Paths
  import opened Resolve
  import opened Files
  import opened Users

  const CMD_LIST: Byte := 1
  const CMD_GET: Byte := 2
  const CMD_PUT: Byte := 3
  const CMD_DELETE: Byte := 4
  const CMD_MKDIR: Byte := 5
  const CMD_INFO: Byte := 6
  const CMD_AUTH: Byte := 7
  const CMD_LOGOUT: Byte := 8

  const RESP_OK: Byte := 0
  const RESP_ERROR: Byte := 1
  const RESP_AUTH_REQUIRED: Byte := 2

  const BUFFER_SIZE: nat := 4096
  const MAX_PATH_LENGTH: nat := 1024
  const HEADER_SIZE: nat := 7
  const AUTH_SIZE: nat := 128
  const MAX_ENTRIES: nat := 100

  datatype Info = Info(name: Bytes, path: Path, node: Node)

  /** The in-memory form of one file_info_t; its layout is the compiler's. */
  type InfoBytes = s: Bytes | |s| == 280 witness seq(280, _ => 0)

  /** get_file_info: the last component of the request's path, and the node. */
  function FileInfo(place: Place, t: Tree, rel: Bytes): Option<Info> {
    match InfoTarget(place, t, rel)
    case None => None
    case Some(p) => if p in t then Some(Info(BaseName(rel), p, t[p])) else None
  }

  /** What stays fixed while the server runs. */
  datatype Env = Env(
    place: Place,
    enableAuth: bool,
    users: seq<User>,
    readdir: (Tree, Path) -> seq<Bytes>,
    pack: Info -> InfoBytes)

  datatype Request = Request(cmd: Byte, path: Bytes, data: Bytes)

  datatype Effect = Effect(ok: bool, reply: Bytes, tree: Tree, role: int)

  function Header(status: Byte, size: nat): (r: Bytes)
    ensures |r| == 5
  {
    [status] + U32(size % UINT32_SIZE)
  }

  /** One complete response: its declared length is the length of its body. */
  predicate IsFrame(reply: Bytes) {
    |reply| >= 5 && GetU32(reply[1..5]) == |reply| - 5
  }

  lemma HeaderDeclares(status: Byte, size: nat, body: Bytes)
    ensures IsFrame(Header(status, size) + body) <==> |body| == size % UINT32_SIZE
  {
    var reply := Header(status, size) + body;
    assert reply[1..5] == U32(size % UINT32_SIZE);
    U32RoundTrip(size % UINT32_SIZE);
  }

  function Frame(status: Byte, body: Bytes): (r: Bytes)
    ensures |body| < UINT32_SIZE ==> IsFrame(r)
  {
    HeaderDeclares(status, |body|, body);
    Header(status, |body|) + body
  }

  /** The fixed texts of the replies. */
  datatype Notice =
    | AuthenticationRequired
    | InvalidAuthenticationData
    | AuthenticationFailed
    | LoggedOut
    | PermissionDenied
    | ListFailed
    | ReadFailed
    | InvalidPath
    | WriteFailed
    | FileWritten
    | DeleteFailed
    | FileDeleted
    | MkdirFailed
    | DirectoryCreated
    | InfoFailed
    | UnknownCommand

  /** The length that is passed along with each text. */
  function Size(n: Notice): (k: nat)
    ensures k < 64
  {
    match n
    case AuthenticationRequired => 23
    case InvalidAuthenticationData => 27
    case AuthenticationFailed => 21
    case LoggedOut => 10
    case PermissionDenied => 17
    case ListFailed => 24
    case ReadFailed => 19
    case InvalidPath => 12
    case WriteFailed => 20
    case FileWritten => 25
    case DeleteFailed => 21
    case FileDeleted => 25
    case MkdirFailed => 20
    case DirectoryCreated => 30
    case InfoFailed => 23
    case UnknownCommand => 15
  }

  function Words(n: Notice): (r: Bytes)
    ensures |r| == Size(n)
  {
    match n
    case AuthenticationRequired => Ascii("Authentication required")
    case InvalidAuthenticationData => Ascii("Invalid authentication data")
    case AuthenticationFailed => Ascii("Authentication failed")
    case LoggedOut => Ascii("Logged out")
    case PermissionDenied => Ascii("Permission denied")
    case ListFailed => Ascii("Failed to list directory")
    case ReadFailed => Ascii("Failed to read file")
    case InvalidPath => Ascii("Invalid path")
    case WriteFailed => Ascii("Failed to write file")
    case FileWritten => Ascii("File written successfully")
    case DeleteFailed => Ascii("Failed to delete file")
    case FileDeleted => Ascii("File deleted successfully")
    case MkdirFailed => Ascii("Failed to create dir")
    case DirectoryCreated => Ascii("Directory created successfully")
    case InfoFailed => Ascii("Failed to get file info")
    case UnknownCommand => Ascii("Unknown command")
  }

  function Message(status: Byte, n: Notice): (r: Bytes)
    ensures IsFrame(r)
  {
    Frame(status, Words(n))
  }

  predicate CheckPermission(role: int, operation: Byte) {
    if role == ROLE_ADMIN then true
    else if role == ROLE_USER then
      operation == CMD_LIST || operation == CMD_GET || operation == CMD_PUT ||
      operation == CMD_DELETE || operation == CMD_MKDIR || operation == CMD_INFO
    else if role == ROLE_GUEST then
      operation == CMD_LIST || operation == CMD_GET || operation == CMD_INFO
    else false
  }

  predicate MayWrite(role: int) {
    role == ROLE_USER || role == ROLE_ADMIN
  }

  /** Exactly users and administrators may change the tree. */
  lemma WritersAreUsersAndAdmins(role: int, operation: Byte)
    requires operation in {CMD_PUT, CMD_DELETE, CMD_MKDIR}
    ensures CheckPermission(role, operation) <==> MayWrite(role)
  {
  }

  // Listing a directory

  function ListEntries(t: Tree, cwd: Path, dir: Bytes, names: seq<Bytes>, room: nat): (r: seq<Info>)
    ensures |r| <= room
  {
    if names == [] || room == 0 then []
    else if names[0] == [DOT] || names[0] == DOTDOT then ListEntries(t, cwd, dir, names[1..], room)
    else match Stat(t, cwd, Cut(dir + [SLASH] + names[0], MAX_PATH_SIZE - 1))
      case None => ListEntries(t, cwd, dir, names[1..], room)
      case Some(p) =>
        if p !in t then ListEntries(t, cwd, dir, names[1..], room)
        else [Info(Cut(names[0], NAME_MAX), p, t[p])] + ListEntries(t, cwd, dir, names[1..], room - 1)
  }

  predicate IsDots(name: Bytes) {
    name == [DOT] || name == DOTDOT
  }

  /** What readdir yields: dots, or names whose pathnames fit the 2048-byte buffer. */
  predicate NamesFit(d: Path, names: seq<Bytes>) {
    forall i :: 0 <= i < |names| && !IsDots(names[i]) ==>
      ValidName(names[i]) && |Render(d)| + 1 + |names[i]| < MAX_PATH_SIZE
  }

  /** The node that an entry of d is, or that it leads to when it is a link. */
  function NodeOf(t: Tree, d: Path, name: Bytes): Option<Path> {
    match Walk(t, d, [name], MAX_LINKS)
    case Found(p, _) => Some(p)
    case _ => None
  }

  /** The names without the dots and without links that lead nowhere. */
  function Visible(t: Tree, d: Path, names: seq<Bytes>): (r: seq<Bytes>)
    ensures forall n :: n in r <==> n in names && !IsDots(n) && NodeOf(t, d, n).Some?
  {
    if names == [] then []
    else (if IsDots(names[0]) || NodeOf(t, d, names[0]).None? then [] else [names[0]]) + Visible(t, d, names[1..])
  }

  predicate Describes(t: Tree, d: Path, name: Bytes, info: Info) {
    match NodeOf(t, d, name)
    case Some(p) => p in t && info == Info(name, p, t[p])
    case None => false
  }

  /** How the first name is listed. */
  lemma ListsTheFirst(t: Tree, cwd: Path, d: Path, names: seq<Bytes>, room: nat)
    requires WellFormed(t) && d in t && !t[d].Link? && NamesFit(d, names) && names != [] && room > 0
    ensures NamesFit(d, names[1..])
    ensures if IsDots(names[0]) || NodeOf(t, d, names[0]).None? then
              && ListEntries(t, cwd, Render(d), names, room) == ListEntries(t, cwd, Render(d), names[1..], room)
              && Visible(t, d, names) == Visible(t, d, names[1..])
            else
              && Visible(t, d, names) == [names[0]] + Visible(t, d, names[1..])
              && exists info :: Describes(t, d, names[0], info) &&
                   ListEntries(t, cwd, Render(d), names, room) ==
                   [info] + ListEntries(t, cwd, Render(d), names[1..], room - 1)
  {
    hide WellFormed, Render, Stat, NodeOf;
    assert forall i :: 0 <= i < |names[1..]| ==> names[1..][i] == names[i + 1];
    if !IsDots(names[0]) {
      EntryResolves(t, cwd, d, names[0]);
      if NodeOf(t, d, names[0]).Some? {
        var p := NodeOf(t, d, names[0]).value;
        assert Describes(t, d, names[0], Info(names[0], p, t[p]));
      }
    }
  }

  /** The listing has one record for each entry but the dots and the links that
      lead nowhere, in reading order: its name, and the node it is or leads to. */
  lemma {:induction false} ListsTheEntries(t: Tree, cwd: Path, d: Path, names: seq<Bytes>, room: nat)
    requires WellFormed(t) && d in t && !t[d].Link? && NamesFit(d, names)
    ensures var r := ListEntries(t, cwd, Render(d), names, room);
            && |r| == Min(|Visible(t, d, names)|, room)
            && forall i :: 0 <= i < |r| ==> Describes(t, d, Visible(t, d, names)[i], r[i])
  {
    if names != [] && room > 0 {
      hide ListEntries, Visible, NamesFit, WellFormed, Render, Describes, NodeOf, IsDots;
      ListsTheFirst(t, cwd, d, names, room);
      ListsTheEntries(t, cwd, d, names[1..],
                      if IsDots(names[0]) || NodeOf(t, d, names[0]).None? then room else room - 1);
    }
  }

  /** An entry that is no link is listed as itself. */
  lemma EntryIsItsNode(t: Tree, d: Path, name: Bytes)
    requires WellFormed(t) && d + [name] in t && !t[d + [name]].Link?
    ensures NodeOf(t, d, name) == Some(d + [name])
  {
    hide WellFormed;
    EntryOfDirectory(t, d, name);
    OneStep(t, d, name, MAX_LINKS);
  }

  lemma EntryResolves(t: Tree, cwd: Path, d: Path, name: Bytes)
    requires WellFormed(t) && d in t && !t[d].Link? && ValidName(name)
    requires |Render(d)| + 1 + |name| < MAX_PATH_SIZE
    ensures Stat(t, cwd, Cut(Render(d) + [SLASH] + name, MAX_PATH_SIZE - 1)) == NodeOf(t, d, name)
    ensures NodeOf(t, d, name).Some? ==> NodeOf(t, d, name).value in t
    ensures Cut(name, NAME_MAX) == name
  {
    var s := Render(d) + [SLASH] + name;
    assert [] in t && t[[]].Dir?;
    WalkSound(t, d, [name], MAX_LINKS);
    hide WellFormed, Split, Absolute, Walk;
    SplitOne(name);
    SplitAtSlash(Render(d), name);
    ResolveRender(t, cwd, d);
    WalkAppend(t, [], Split(Render(d)), [name], MAX_LINKS);
  }

  /** list_directory */
  function Listing(env: Env, t: Tree, rel: Bytes): (r: Option<seq<Info>>)
    ensures r.Some? ==> |r.value| <= MAX_ENTRIES
  {
    if rel == [] then None
    else match FullPathIn(env.place, t, rel, MAX_PATH_SIZE)
      case None => None
      case Some(s) =>
        match Stat(t, env.place.cwd, s)
        case None => None
        case Some(p) =>
          if p in t && t[p].Dir?
          then Some(ListEntries(t, env.place.cwd, s, env.readdir(t, p), MAX_ENTRIES))
          else None
  }

  function PackAll(env: Env, infos: seq<Info>): (r: Bytes)
    ensures |r| == 280 * |infos|
  {
    if infos == [] then [] else
      var n := |infos| - 1;
      PackAll(env, infos[..n]) + env.pack(infos[n])
  }

  // Reading a file

  /** fopen(s, "rb") and the bytes it then yields; a directory opens but yields none. */
  function OpenRead(t: Tree, cwd: Path, s: Bytes): Option<Bytes> {
    match Stat(t, cwd, s)
    case None => None
    case Some(p) => if p !in t then None else if t[p].File? then Some(t[p].content) else Some([])
  }

  /** Whole buffers up to the announced size, or to the end of the file. */
  function Streamed(content: Bytes, size: nat): (r: Bytes)
    ensures r <= content
  {
    content[..Min(|content|, BUFFER_SIZE * ((size + BUFFER_SIZE - 1) / BUFFER_SIZE))]
  }

  function GetReply(env: Env, t: Tree, rel: Bytes): (bool, Bytes) {
    match FileInfo(env.place, t, rel)
    case None => (true, Message(RESP_ERROR, ReadFailed))
    case Some(info) =>
      if !info.node.File? then (true, Message(RESP_ERROR, ReadFailed))
      else
        var size := |info.node.content|;
        match FullPathIn(env.place, t, rel, STREAM_PATH_SIZE)
        case None => (false, Header(RESP_OK, size))
        case Some(s) =>
          match OpenRead(t, env.place.cwd, s)
          case None => (false, Header(RESP_OK, size))
          case Some(content) => (true, Header(RESP_OK, size) + Streamed(content, size))
  }

  // One request

  predicate Gated(env: Env, role: int, cmd: Byte) {
    env.enableAuth && cmd != CMD_AUTH && role == ROLE_GUEST
  }

  /** The user a successful AUTH logs in as. */
  function Login(env: Env, data: Bytes): Option<int> {
    if |data| < AUTH_SIZE then None
    else Authenticate(env.users, CStr(data), CStr(data[64..]))
  }

  function Welcome(name: Bytes, role: int): Bytes {
    Cut(Ascii("Authenticated as ") + name + Ascii(" (role ") + PrintInt(role) + Ascii(")"), 63)
  }

  function Say(t: Tree, role: int, status: Byte, n: Notice): (e: Effect)
    ensures e.ok && IsFrame(e.reply) && e.tree == t && e.role == role
  {
    Effect(true, Message(status, n), t, role)
  }

  /** What a request whose data has arrived whole does. */
  function Exec(env: Env, t: Tree, role: int, req: Request): Effect {
    if Gated(env, role, req.cmd) then Say(t, role, RESP_AUTH_REQUIRED, AuthenticationRequired)
    else if req.cmd == CMD_AUTH then
      if |req.data| < AUTH_SIZE then Say(t, role, RESP_ERROR, InvalidAuthenticationData)
      else match Login(env, req.data)
        case Some(newRole) => Effect(true, Frame(RESP_OK, Welcome(CStr(req.data), newRole)), t, newRole)
        case None => Say(t, role, RESP_ERROR, AuthenticationFailed)
    else if req.cmd == CMD_LOGOUT then Say(t, ROLE_GUEST, RESP_OK, LoggedOut)
    else if CMD_LIST <= req.cmd <= CMD_INFO then
      if !CheckPermission(role, req.cmd) then Say(t, role, RESP_ERROR, PermissionDenied)
      else if req.cmd == CMD_LIST then
        match Listing(env, t, req.path)
        case None => Say(t, role, RESP_ERROR, ListFailed)
        case Some(infos) => Effect(true, Frame(RESP_OK, PackAll(env, infos)), t, role)
      else if req.cmd == CMD_GET then
        var (ok, reply) := GetReply(env, t, req.path);
        Effect(ok, reply, t, role)
      else if req.cmd == CMD_PUT then
        match FullPath(env.place, t, req.path)
        case None => Say(t, role, RESP_ERROR, InvalidPath)
        case Some(_) =>
          match PutTarget(env.place, t, req.path)
          case None => Say(t, role, RESP_ERROR, WriteFailed)
          case Some(p) => Say(t[p := File(req.data)], role, RESP_OK, FileWritten)
      else if req.cmd == CMD_DELETE then
        match DeleteFile(env.place, t, req.path)
        case None => Say(t, role, RESP_ERROR, DeleteFailed)
        case Some(u) => Say(u, role, RESP_OK, FileDeleted)
      else if req.cmd == CMD_MKDIR then
        match CreateDirectory(env.place, t, req.path)
        case None => Say(t, role, RESP_ERROR, MkdirFailed)
        case Some(u) => Say(u, role, RESP_OK, DirectoryCreated)
      else
        match FileInfo(env.place, t, req.path)
        case None => Say(t, role, RESP_ERROR, InfoFailed)
        case Some(info) => Effect(true, Frame(RESP_OK, env.pack(info)), t, role)
    else Say(t, role, RESP_ERROR, UnknownCommand)
  }

  /** The file a PUT request opens, if it gets that far. */
  function PutOpens(env: Env, t: Tree, role: int, req: Request): Option<Path> {
    if req.cmd == CMD_PUT && !Gated(env, role, req.cmd) && CheckPermission(role, CMD_PUT)
    then PutTarget(env.place, t, req.path)
    else None
  }

  // What requests may change

  /** The tree changes only for a PUT, DELETE or MKDIR of a user or administrator. */
  lemma OnlyWritersChangeTree(env: Env, t: Tree, role: int, req: Request)
    ensures Exec(env, t, role, req).tree != t ==>
              MayWrite(role) && req.cmd in {CMD_PUT, CMD_DELETE, CMD_MKDIR}
  {
    hide FullPath, PutTarget, DeleteFile, CreateDirectory, GetReply, Listing, FileInfo, Login, Say, BaseName;
  }

  /** The role changes only by a login that the user table grants, or by LOGOUT. */
  lemma RoleFollowsSession(env: Env, t: Tree, role: int, req: Request)
    ensures Exec(env, t, role, req).role ==
            if req.cmd == CMD_AUTH then
              (match Login(env, req.data) case Some(r) => r case None => role)
            else if req.cmd == CMD_LOGOUT then ROLE_GUEST
            else role
  {
    hide FullPath, PutTarget, DeleteFile, CreateDirectory, GetReply, Listing, FileInfo, Say, BaseName, Authenticate;
  }

  /** Without users nobody gets beyond guest and nothing is written. */
  lemma NoUsersNoWrites(env: Env, t: Tree, req: Request)
    requires env.users == []
    ensures Exec(env, t, ROLE_GUEST, req).role == ROLE_GUEST && Exec(env, t, ROLE_GUEST, req).tree == t
    ensures PutOpens(env, t, ROLE_GUEST, req).None?
  {
    OnlyWritersChangeTree(env, t, ROLE_GUEST, req);
    RoleFollowsSession(env, t, ROLE_GUEST, req);
  }
}
