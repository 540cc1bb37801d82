/** The byte-level meaning of a connection: how the stream is cut into requests
    and what is written back, as a function of the bytes alone. */
module Streams {
  import opened CBytes
  import opened Paths
  import opened Resolve
  import opened Stability
  import opened Files
  import opened Requests

  /** After one request: is the connection still up, what was written, the tree,
      the session's role, and the bytes not yet read. */
  datatype Outcome = Outcome(ok: bool, reply: Bytes, tree: Tree, role: int, rest: Bytes)

  /** process_request on a request whose first window of data has been read; a
      PUT takes what is missing from the stream. */
  function Process(env: Env, t: Tree, role: int, req: Request, total: nat, stream: Bytes): Outcome
    requires |req.data| <= total
  {
    match PutOpens(env, t, role, req)
    case None =>
      var e := Exec(env, t, role, req);
      Outcome(e.ok, e.reply, e.tree, e.role, stream)
    case Some(p) =>
      var got := Min(total - |req.data|, |stream|);
      var u := t[p := File(req.data + stream[..got])];
      if got == total - |req.data|
      then Outcome(true, Message(RESP_OK, FileWritten), u, role, stream[got..])
      else Outcome(false, [], u, role, [])
  }

  /** The data bytes that are read along with the header and the path. */
  function Window(pathLength: nat, dataLength: nat): (n: nat)
    requires HEADER_SIZE + pathLength <= BUFFER_SIZE
    ensures n <= dataLength && HEADER_SIZE + pathLength + n <= BUFFER_SIZE
  {
    Min(dataLength, BUFFER_SIZE - HEADER_SIZE - pathLength)
  }

  datatype Collected =
    | Request(req: Request, total: nat, rest: Bytes)  // header, path and window have arrived
    | Hangup                                          // they never will, or the path is too long

  /** handle_client up to the call of process_request, and its length checks. */
  function Collect(input: Bytes): (r: Collected)
    ensures r.Request? ==> |r.req.data| <= r.total < UINT32_SIZE && |r.rest| < |input| && NUL !in r.req.path
  {
    if |input| < HEADER_SIZE then Hangup
    else
      var pathLength := GetU16(input[1..3]);
      if HEADER_SIZE + pathLength > BUFFER_SIZE then Hangup
      else
        var total := GetU32(input[3..7]);
        var start := HEADER_SIZE + pathLength;
        var end := start + Window(pathLength, total);
        if |input| < end || pathLength >= MAX_PATH_LENGTH then Hangup
        else Collected.Request(
            Requests.Request(input[0], CStr(input[HEADER_SIZE..start]), input[start..end]),
            total, input[end..])
  }

  /** What process_request reads off its buffer. */
  function Decode(frame: Bytes): (r: Collected)
    ensures r.Request? ==> |r.req.data| <= r.total < UINT32_SIZE && NUL !in r.req.path
  {
    if |frame| < HEADER_SIZE then Hangup
    else
      var start := HEADER_SIZE + GetU16(frame[1..3]);
      if |frame| < start || start - HEADER_SIZE >= MAX_PATH_LENGTH then Hangup
      else
        var total := GetU32(frame[3..7]);
        var n := Min(|frame| - start, total);
        Collected.Request(
          Requests.Request(frame[0], CStr(frame[HEADER_SIZE..start]), frame[start..start + n]), total, [])
  }

  /** handle_client passes on exactly what process_request then decodes. */
  lemma DecodeCollected(input: Bytes, end: nat)
    requires |input| >= HEADER_SIZE && HEADER_SIZE + GetU16(input[1..3]) <= BUFFER_SIZE
    requires end == HEADER_SIZE + GetU16(input[1..3]) + Window(GetU16(input[1..3]), GetU32(input[3..7]))
    requires end <= |input|
    ensures Collect(input) ==
            match Decode(input[..end])
            case Hangup => Hangup
            case Request(req, total, _) => Collected.Request(req, total, input[end..])
  {
    hide GetU16, GetU32;
    var frame := input[..end];
    assert frame[1..3] == input[1..3] && frame[3..7] == input[3..7];
    var start := HEADER_SIZE + GetU16(input[1..3]);
    assert frame[HEADER_SIZE..start] == input[HEADER_SIZE..start];
    assert frame[start..end] == input[start..end];
  }

  function HandleOne(env: Env, t: Tree, role: int, input: Bytes): (r: Outcome)
    ensures r.ok ==> |r.rest| < |input|
  {
    match Collect(input)
    case Hangup => Outcome(false, [], t, role, [])
    case Request(req, total, rest) => Process(env, t, role, req, total, rest)
  }

  /** A whole connection: the replies to the requests that returned 0, the role
      after each of them, the final tree, and what the last request wrote
      before it ended the connection. */
  datatype Session = Session(replies: seq<Bytes>, roles: seq<int>, tree: Tree, tail: Bytes)

  function Serve(env: Env, t: Tree, role: int, input: Bytes): (r: Session)
    ensures |r.replies| == |r.roles|
    decreases |input|
  {
    var o := HandleOne(env, t, role, input);
    if !o.ok then Session([], [], o.tree, o.reply)
    else
      var s := Serve(env, o.tree, o.role, o.rest);
      Session([o.reply] + s.replies, [o.role] + s.roles, s.tree, s.tail)
  }

  function Flatten(parts: seq<Bytes>): Bytes {
    if parts == [] then [] else parts[0] + Flatten(parts[1..])
  }

  // The tree stays a tree

  lemma PutKeepsTree(place: Place, t: Tree, path: Bytes, content: Bytes)
    requires WellFormed(t) && PutTarget(place, t, path).Some?
    ensures WellFormed(t[PutTarget(place, t, path).value := File(content)])
  {
    hide FullPath, Walk, Split;
    var p := PutTarget(place, t, path).value;
    var s := FullPathIn(place, t, path, STREAM_PATH_SIZE).value;
    StartsSound(place, t, s);
    assert p in t ==> p != [] && t[p].File?;
    AddedNode(t, p, File(content));
  }

  lemma DeleteKeepsTree(place: Place, t: Tree, path: Bytes)
    requires WellFormed(t) && DeleteFile(place, t, path).Some?
    ensures WellFormed(DeleteFile(place, t, path).value)
  {
    hide FullPath, Walk, Split, WellFormed;
    var e := Entry(t, place.cwd, FullPathIn(place, t, path, MAX_PATH_SIZE).value).value;
    RemovedNode(t, e);
  }

  lemma MkdirKeepsTree(place: Place, t: Tree, path: Bytes)
    requires WellFormed(t) && CreateDirectory(place, t, path).Some?
    ensures WellFormed(CreateDirectory(place, t, path).value)
  {
    hide FullPath, Walk, Split, WellFormed;
    var e := Entry(t, place.cwd, FullPathIn(place, t, path, MAX_PATH_SIZE).value).value;
    assert Up(e) + [Last(e)] == e;
    AddedNode(t, e, Dir);
  }

  lemma ExecKeepsTree(env: Env, t: Tree, role: int, req: Request)
    requires WellFormed(t)
    ensures WellFormed(Exec(env, t, role, req).tree)
  {
    hide FullPath, PutTarget, DeleteFile, CreateDirectory, GetReply, Listing, FileInfo, Login, BaseName, PackAll,
      WellFormed, CheckPermission, Say, Frame;
    if PutTarget(env.place, t, req.path).Some? {
      PutKeepsTree(env.place, t, req.path, req.data);
    }
    if DeleteFile(env.place, t, req.path).Some? {
      DeleteKeepsTree(env.place, t, req.path);
    }
    if CreateDirectory(env.place, t, req.path).Some? {
      MkdirKeepsTree(env.place, t, req.path);
    }
  }

  /** Whatever arrives, the served tree stays a tree. */
  lemma HandleKeepsTree(env: Env, t: Tree, role: int, input: Bytes)
    requires WellFormed(t)
    ensures WellFormed(HandleOne(env, t, role, input).tree)
  {
    hide Exec, Collect, PutTarget, CheckPermission, WellFormed, Message;
    match Collect(input)
    case Hangup =>
    case Request(req, total, rest) =>
      if PutOpens(env, t, role, req).Some? {
        var got := Min(total - |req.data|, |rest|);
        PutKeepsTree(env.place, t, req.path, req.data + rest[..got]);
      } else {
        ExecKeepsTree(env, t, role, req);
      }
  }

  // Requests on the wire

  /** The header and the path of a request that announces size bytes of data. */
  function RequestHead(cmd: Byte, path: Bytes, size: nat): Bytes {
    [cmd] + U16(|path| % 0x1_0000) + U32(size % UINT32_SIZE) + path
  }

  /** send_request */
  function Encode(req: Request): Bytes {
    RequestHead(req.cmd, req.path, |req.data|) + req.data
  }

  /** A request that the wire format can carry and handle_client accepts. */
  predicate Sendable(req: Request) {
    NUL !in req.path && |req.path| < MAX_PATH_LENGTH && |req.data| < UINT32_SIZE
  }

  /** The request fits the 4096-byte buffer with its header. */
  predicate Fits(req: Request) {
    HEADER_SIZE + |req.path| + |req.data| <= BUFFER_SIZE
  }

  lemma EncodedFields(req: Request, rest: Bytes)
    requires Sendable(req)
    ensures var s := Encode(req) + rest;
            var n := HEADER_SIZE + |req.path|;
            && |s| == n + |req.data| + |rest|
            && s[0] == req.cmd && GetU16(s[1..3]) == |req.path| && GetU32(s[3..7]) == |req.data|
            && s[HEADER_SIZE..n] == req.path && s[n..] == req.data + rest
  {
    hide U16, U32, GetU16, GetU32;
    var len, size := U16(|req.path|), U32(|req.data|);
    HeaderFields(req.cmd, len, size);
    SizesRoundTrip(|req.path|, |req.data|);
    var head := [req.cmd] + len + size;
    var s := Encode(req) + rest;
    assert s == head + (req.path + (req.data + rest));
    assert s[..HEADER_SIZE] == head;
    assert s[1..3] == s[..HEADER_SIZE][1..3] && s[3..7] == s[..HEADER_SIZE][3..7];
  }

  lemma HeaderFields(cmd: Byte, len: Bytes, size: Bytes)
    requires |len| == 2 && |size| == 4
    ensures var head := [cmd] + len + size;
            |head| == HEADER_SIZE && head[0] == cmd && head[1..3] == len && head[3..7] == size
  {
  }

  lemma SizesRoundTrip(a: nat, b: nat)
    requires a < 0x1_0000 && b < UINT32_SIZE
    ensures GetU16(U16(a)) == a && GetU32(U32(b)) == b
  {
    U32RoundTrip(b);
  }

  /** What handle_client collects of an encoded request. */
  lemma CollectEncoded(req: Request, rest: Bytes)
    requires Sendable(req)
    ensures var w := Window(|req.path|, |req.data|);
            Collect(Encode(req) + rest) ==
            if |req.data| + |rest| < w then Hangup
            else Collected.Request(
              Requests.Request(req.cmd, req.path, (req.data + rest)[..w]), |req.data|, (req.data + rest)[w..])
  {
    hide Encode, U16, U32, GetU16, GetU32;
    EncodedFields(req, rest);
    var s := Encode(req) + rest;
    var n := HEADER_SIZE + |req.path|;
    var w := Window(|req.path|, |req.data|);
    CStrOf(req.path, []);
    assert req.path + [] == req.path;
    if |s| >= n + w {
      assert s[n..n + w] == s[n..][..w];
      assert s[n + w..] == s[n..][w..];
    }
  }

  /** A whole request on the stream is handled as that request, and no byte
      after it is consumed, exactly when it fits the buffer or is a PUT that
      opens its file. */
  lemma WholeRequest(env: Env, t: Tree, role: int, req: Request, rest: Bytes)
    requires Sendable(req)
    ensures var o := HandleOne(env, t, role, Encode(req) + rest);
            var e := Exec(env, t, role, req);
            Fits(req) || PutOpens(env, t, role, req).Some? ==> o == Outcome(e.ok, e.reply, e.tree, e.role, rest)
    ensures HandleOne(env, t, role, Encode(req) + rest).rest == rest <==>
            Fits(req) || PutOpens(env, t, role, req).Some?
  {
    hide Exec, PutTarget, Encode, Collect, Message, Gated, CheckPermission;
    var w := Window(|req.path|, |req.data|);
    CollectEncoded(req, rest);
    var all := req.data + rest;
    var front := Requests.Request(req.cmd, req.path, all[..w]);
    assert PutOpens(env, t, role, front) == PutOpens(env, t, role, req);
    assert all[..w] == req.data[..w] && all[w..] == req.data[w..] + rest;
    if PutOpens(env, t, role, req).Some? {
      var missing := |req.data| - w;
      assert all[w..][..missing] == req.data[w..] && all[w..][missing..] == rest;
      assert req.data[..w] + req.data[w..] == req.data;
      PutOpensExec(env, t, role, req);
    } else if Fits(req) {
      assert req.data[..w] == req.data && all[w..] == rest;
    } else {
      assert |all[w..]| > |rest|;
    }
  }

  /** What is left of the data of any other request is read as the next request. */
  lemma UnreadDataIsNext(env: Env, t: Tree, role: int, req: Request, rest: Bytes)
    requires Sendable(req) && !Fits(req) && PutOpens(env, t, role, req).None?
    ensures HandleOne(env, t, role, Encode(req) + rest).rest ==
            req.data[Window(|req.path|, |req.data|)..] + rest
  {
    hide Exec, PutTarget, Encode, Collect, Gated, CheckPermission;
    var w := Window(|req.path|, |req.data|);
    CollectEncoded(req, rest);
    var front := Requests.Request(req.cmd, req.path, (req.data + rest)[..w]);
    assert PutOpens(env, t, role, front) == PutOpens(env, t, role, req);
    assert (req.data + rest)[w..] == req.data[w..] + rest;
  }

  /** A DELETE of "a" with 5000 bytes of data leaves 912 of them unread. */
  lemma OversizedDelete(env: Env, t: Tree, role: int, data: Bytes, rest: Bytes)
    requires |data| == 5000
    ensures var req := Requests.Request(CMD_DELETE, [97], data);
            HandleOne(env, t, role, Encode(req) + rest).rest == data[4088..] + rest != rest
  {
    hide HandleOne, Encode;
    UnreadDataIsNext(env, t, role, Requests.Request(CMD_DELETE, [97], data), rest);
    assert |data[4088..] + rest| == 912 + |rest|;
  }

  lemma PutOpensExec(env: Env, t: Tree, role: int, req: Request)
    requires PutOpens(env, t, role, req).Some?
    ensures var p := PutOpens(env, t, role, req).value;
            Exec(env, t, role, req) ==
            Effect(true, Message(RESP_OK, FileWritten), t[p := File(req.data)], role)
  {
    hide FullPath, OpenWrite, Message;
    assert FullPath(env.place, t, req.path).Some?;
  }

  // Sequences of requests

  function EncodeAll(reqs: seq<Request>): Bytes {
    if reqs == [] then [] else Encode(reqs[0]) + EncodeAll(reqs[1..])
  }

  /** Each request, as the ones before it leave the server, fits the buffer or
      opens its file. */
  ghost predicate Aligned(env: Env, t: Tree, role: int, reqs: seq<Request>)
    decreases |reqs|
  {
    reqs == [] ||
      (&& Sendable(reqs[0])
       && (Fits(reqs[0]) || PutOpens(env, t, role, reqs[0]).Some?)
       && var e := Exec(env, t, role, reqs[0]);
          e.ok ==> Aligned(env, e.tree, e.role, reqs[1..]))
  }

  /** The requests carried out one after another until one ends the connection. */
  function Perform(env: Env, t: Tree, role: int, reqs: seq<Request>, after: Bytes): Session
    decreases |reqs|
  {
    if reqs == [] then Serve(env, t, role, after)
    else
      var e := Exec(env, t, role, reqs[0]);
      if !e.ok then Session([], [], e.tree, e.reply)
      else
        var s := Perform(env, e.tree, e.role, reqs[1..], after);
        Session([e.reply] + s.replies, [e.role] + s.roles, s.tree, s.tail)
  }

  /** A stream of encoded requests is served as exactly that sequence of requests. */
  lemma {:induction false} ServedInOrder(env: Env, t: Tree, role: int, reqs: seq<Request>, after: Bytes)
    requires Aligned(env, t, role, reqs)
    ensures Serve(env, t, role, EncodeAll(reqs) + after) == Perform(env, t, role, reqs, after)
    decreases |reqs|
  {
    hide Exec, Encode, HandleOne, PutOpens;
    if reqs == [] {
      assert EncodeAll(reqs) + after == after;
    } else {
      var rest := EncodeAll(reqs[1..]) + after;
      assert EncodeAll(reqs) + after == Encode(reqs[0]) + rest;
      WholeRequest(env, t, role, reqs[0], rest);
      var e := Exec(env, t, role, reqs[0]);
      if e.ok {
        ServedInOrder(env, e.tree, e.role, reqs[1..], after);
      }
    }
  }

  // An interrupted PUT

  /** What is collected when the stream ends after n < |req.data| bytes of data. */
  lemma CollectCut(req: Request, n: nat)
    requires Sendable(req) && n < |req.data|
    ensures var w := Window(|req.path|, |req.data|);
            Collect(Encode(req)[..HEADER_SIZE + |req.path| + n]) ==
            if n < w then Hangup
            else Collected.Request(Requests.Request(req.cmd, req.path, req.data[..w]), |req.data|, req.data[w..n])
  {
    hide Encode, U16, U32, GetU16, GetU32;
    var whole := Encode(req);
    EncodedFields(req, []);
    assert whole + [] == whole && req.data + [] == req.data;
    var k := HEADER_SIZE + |req.path|;
    var s := whole[..k + n];
    PrefixSlices(whole, k + n, k);
    CStrOf(req.path, []);
    assert req.path + [] == req.path;
    var w := Window(|req.path|, |req.data|);
    if n >= w {
      CutTail(whole, k, n, w);
      assert req.data[..n][..w] == req.data[..w];
    }
  }

  /** The two parts of what a prefix keeps after its first k bytes. */
  lemma CutTail(whole: Bytes, k: nat, n: nat, w: nat)
    requires w <= n && k + n <= |whole|
    ensures whole[..k + n][k..k + w] == whole[k..][..w]
    ensures whole[..k + n][k + w..] == whole[k..][w..n]
  {
    var s, tail := whole[..k + n], whole[k..];
    assert s[k..k + w] == whole[k..k + w] == tail[..w];
    assert s[k + w..] == whole[k + w..k + n] == tail[w..n];
  }

  lemma PrefixSlices(whole: Bytes, m: nat, k: nat)
    requires HEADER_SIZE <= k <= m <= |whole|
    ensures var s := whole[..m];
            && s[0] == whole[0] && s[1..3] == whole[1..3] && s[3..7] == whole[3..7]
            && s[HEADER_SIZE..k] == whole[HEADER_SIZE..k]
  {
  }

  /** Of the first k bytes of a request a request is made exactly when they hold its
      header, its path and the first window of its data, and the path is not too long. */
  lemma CollectedExactly(req: Request, k: nat)
    requires |req.path| < 0x1_0000 && |req.data| < UINT32_SIZE
    requires k <= |Encode(req)|
    ensures var n := HEADER_SIZE + |req.path|;
            Collect(Encode(req)[..k]).Request? <==> |req.path| < 1024 && k >= n + Min(|req.data|, 4096 - n)
    ensures var c := Collect(Encode(req)[..k]);
            c.Request? ==> c.req.cmd == req.cmd && c.req.path == CStr(req.path) && c.total == |req.data|
  {
    hide U16, U32, GetU16, GetU32;
    var len, size := U16(|req.path|), U32(|req.data|);
    HeaderFields(req.cmd, len, size);
    SizesRoundTrip(|req.path|, |req.data|);
    var s := Encode(req)[..k];
    if k >= HEADER_SIZE {
      var head := [req.cmd] + len + size;
      assert Encode(req) == head + (req.path + req.data);
      assert s[..HEADER_SIZE] == head;
      assert s[1..3] == s[..HEADER_SIZE][1..3] && s[3..7] == s[..HEADER_SIZE][3..7];
      if k >= HEADER_SIZE + |req.path| {
        assert s[HEADER_SIZE..HEADER_SIZE + |req.path|] == req.path;
      }
    }
  }

  /** A permitted PUT with an openable target whose stream ends after n bytes of
      its data: nothing has happened if the first window is not complete, and
      the file holds exactly those n bytes, with no reply, if it is. */
  lemma InterruptedPut(env: Env, t: Tree, role: int, req: Request, n: nat, p: Path)
    requires Sendable(req) && n < |req.data|
    requires PutOpens(env, t, role, req) == Some(p)
    ensures var o := HandleOne(env, t, role, Encode(req)[..HEADER_SIZE + |req.path| + n]);
            && !o.ok && o.reply == [] && o.role == role
            && o.tree == if n < Window(|req.path|, |req.data|) then t else t[p := File(req.data[..n])]
  {
    hide Exec, PutTarget, Encode, Collect;
    CollectCut(req, n);
    var w := Window(|req.path|, |req.data|);
    if n >= w {
      var front := Requests.Request(req.cmd, req.path, req.data[..w]);
      assert PutOpens(env, t, role, front) == Some(p);
      assert req.data[..w] + req.data[w..n] == req.data[..n];
      assert req.data[w..n][..n - w] == req.data[w..n];
    }
  }

  // Replies

  /** What GET streams is the file, exactly the announced bytes, when the file
      does not change between stat and the last read. */
  lemma StreamedWhole(content: Bytes)
    ensures Streamed(content, |content|) == content
  {
  }

  /** When the file's length L while it is read is not the size s that stat
      gave, the declared number of bytes is sent only if the reading stops at
      a buffer boundary that s is on. */
  lemma DeclaredBytesSent(content: Bytes, size: nat)
    requires size < UINT32_SIZE
    ensures IsFrame(Header(RESP_OK, size) + Streamed(content, size)) <==>
            |content| == size || (|content| > size && size % BUFFER_SIZE == 0)
  {
    hide Header, IsFrame;
    HeaderDeclares(RESP_OK, size, Streamed(content, size));
  }

  /** A file of one byte that is emptied between stat and the first read. */
  lemma EmptiedFileIsNoFrame()
    ensures !IsFrame(Header(RESP_OK, 1) + Streamed([], 1))
  {
    DeclaredBytesSent([], 1);
  }

  /** A file of 4 GiB is announced as empty. */
  lemma HugeFileIsNoFrame(content: Bytes)
    requires |content| == UINT32_SIZE
    ensures Header(RESP_OK, |content|) == Header(RESP_OK, 0) && !IsFrame(Header(RESP_OK, |content|) + content)
  {
    hide IsFrame;
    HeaderDeclares(RESP_OK, |content|, content);
  }

  /** A GET's path resolves the same way for the 1024-byte buffer as for the 2048-byte one. */
  ghost predicate GetFits(env: Env, t: Tree, path: Bytes) {
    FullPath(env.place, t, path).Some? ==> |FullPath(env.place, t, path).value| < STREAM_PATH_SIZE
  }

  /** The file a GET finds. */
  function GetContent(env: Env, t: Tree, path: Bytes): Option<Bytes> {
    match FileInfo(env.place, t, path)
    case Some(info) => if info.node.File? then Some(info.node.content) else None
    case None => None
  }

  lemma GetAnswersFile(env: Env, t: Tree, path: Bytes)
    requires GetFits(env, t, path)
    ensures GetReply(env, t, path) ==
            match GetContent(env, t, path)
            case Some(content) => (true, Header(RESP_OK, |content|) + content)
            case None => (true, Message(RESP_ERROR, ReadFailed))
  {
    hide FullPath, Stat, Message;
    if GetContent(env, t, path).Some? {
      StreamedWhole(GetContent(env, t, path).value);
    }
  }

  /** What the second get_full_path and fopen of a GET give. */
  function SecondOpen(env: Env, t: Tree, path: Bytes): Option<Bytes> {
    match FullPathIn(env.place, t, path, STREAM_PATH_SIZE)
    case None => None
    case Some(s) => OpenRead(t, env.place.cwd, s)
  }

  /** The request is a GET that is allowed and finds a file. */
  predicate ServesFile(env: Env, t: Tree, role: int, req: Request) {
    && req.cmd == CMD_GET && !Gated(env, role, req.cmd) && CheckPermission(role, CMD_GET)
    && GetContent(env, t, req.path).Some?
  }

  /** A request ends the connection exactly when it is a GET whose file cannot be
      opened by the name that fits the 1024-byte buffer. Any other reply is one
      complete frame exactly when it carries no file, or what is read of the file
      has the size of the file that was found, modulo 2^32. */
  lemma ReplyIsFrame(env: Env, t: Tree, role: int, req: Request)
    ensures var e := Exec(env, t, role, req);
            && (e.ok <==> (ServesFile(env, t, role, req) ==> SecondOpen(env, t, req.path).Some?))
            && (e.ok ==>
                  (IsFrame(e.reply) <==>
                   (ServesFile(env, t, role, req) ==>
                      var size := |GetContent(env, t, req.path).value|;
                      |Streamed(SecondOpen(env, t, req.path).value, size)| == size % UINT32_SIZE)))
  {
    hide FullPath, PutTarget, DeleteFile, CreateDirectory, GetReply, GetContent, Listing, FileInfo, Login, Frame,
      Header, Say, Message, BaseName, PackAll, IsFrame, Ascii, SecondOpen, Streamed;
    GetReplyParts(env, t, req.path);
    if ServesFile(env, t, role, req) && SecondOpen(env, t, req.path).Some? {
      var size := |GetContent(env, t, req.path).value|;
      HeaderDeclares(RESP_OK, size, Streamed(SecondOpen(env, t, req.path).value, size));
    }
  }

  lemma GetReplyParts(env: Env, t: Tree, path: Bytes)
    ensures GetReply(env, t, path) ==
            match GetContent(env, t, path)
            case None => (true, Message(RESP_ERROR, ReadFailed))
            case Some(content) =>
              match SecondOpen(env, t, path)
              case None => (false, Header(RESP_OK, |content|))
              case Some(body) => (true, Header(RESP_OK, |content|) + Streamed(body, |content|))
  {
    hide FullPath, Stat, Message, FileInfo, Header, Streamed;
  }

  /** When the name that fits the 1024-byte buffer is a directory's, the file that was
      found is announced and nothing follows; when it is another file's, that file's
      bytes follow, up to the buffer in which the announced size ends. */
  lemma CutNameIsRead(env: Env, t: Tree, path: Bytes, content: Bytes, s: Bytes, p: Path)
    requires GetContent(env, t, path) == Some(content) && p in t && !t[p].Link?
    requires FullPathIn(env.place, t, path, STREAM_PATH_SIZE) == Some(s) && Stat(t, env.place.cwd, s) == Some(p)
    ensures GetReply(env, t, path) ==
            (true, Header(RESP_OK, |content|) +
                   if t[p].Dir? then []
                   else t[p].content[..Min(|t[p].content|, 4096 * ((|content| + 4095) / 4096))])
  {
    hide FullPathIn, Stat, Message, FileInfo, Header;
    GetReplyParts(env, t, path);
  }

  /** When the names fit the buffers, that is: unless it carries a file of 4 GiB
      or more. */
  lemma FittingReplyIsFrame(env: Env, t: Tree, role: int, req: Request)
    requires GetFits(env, t, req.path)
    ensures Exec(env, t, role, req).ok
    ensures IsFrame(Exec(env, t, role, req).reply) <==>
            !(ServesFile(env, t, role, req) && |GetContent(env, t, req.path).value| >= UINT32_SIZE)
  {
    hide Exec, GetContent, IsFrame, SecondOpen, Gated, CheckPermission, GetFits, Streamed, ServesFile;
    ReplyIsFrame(env, t, role, req);
    ServesSome(env, t, role, req);
    if GetContent(env, t, req.path).Some? {
      SameFile(env, t, req.path);
      StreamedWhole(GetContent(env, t, req.path).value);
    }
  }

  lemma ServesSome(env: Env, t: Tree, role: int, req: Request)
    ensures ServesFile(env, t, role, req) ==> GetContent(env, t, req.path).Some?
  {
    hide GetContent, Gated, CheckPermission;
  }

  lemma SameFile(env: Env, t: Tree, path: Bytes)
    requires GetFits(env, t, path) && GetContent(env, t, path).Some?
    ensures SecondOpen(env, t, path) == GetContent(env, t, path)
  {
    UncutIsSame(env.place, t, path);
    hide FullPath, Stat, FullPathIn, GetFits;
  }

  lemma UncutIsSame(place: Place, t: Tree, path: Bytes)
    requires FullPath(place, t, path).Some? ==> |FullPath(place, t, path).value| < STREAM_PATH_SIZE
    ensures FullPathIn(place, t, path, STREAM_PATH_SIZE) == FullPathIn(place, t, path, MAX_PATH_SIZE)
  {
    hide FullPath;
  }

  // The reply stream

  ghost predicate SmallFiles(t: Tree) {
    forall p :: p in t && t[p].File? ==> |t[p].content| < UINT32_SIZE
  }

  /** Every request of the connection meets pathnames that fit the 1024-byte buffers. */
  ghost predicate PathsFit(env: Env, t: Tree, role: int, input: Bytes)
    decreases |input|
  {
    var c := Collect(input);
    var o := HandleOne(env, t, role, input);
    && (c.Request? ==> GetFits(env, t, c.req.path))
    && (o.ok ==> PathsFit(env, o.tree, o.role, o.rest))
  }

  lemma SmallFilesKept(env: Env, t: Tree, role: int, input: Bytes)
    requires SmallFiles(t)
    ensures SmallFiles(HandleOne(env, t, role, input).tree)
  {
    hide GetReply, Listing, FileInfo, Login, Say, BaseName, PackAll, CheckPermission, FullPath, Stat, Entry, Walk;
    var c := Collect(input);
    if c.Request? && PutOpens(env, t, role, c.req).None? {
      ExecAddsNoFile(env, t, role, c.req);
    }
  }

  /** A request that is not a PUT with an open file writes no file. */
  lemma ExecAddsNoFile(env: Env, t: Tree, role: int, req: Request)
    requires PutOpens(env, t, role, req).None?
    ensures var u := Exec(env, t, role, req).tree;
            forall p :: p in u && u[p].File? ==> p in t && t[p] == u[p]
  {
    hide GetReply, Listing, FileInfo, Login, Say, BaseName, PackAll, FullPath, PutTarget, Stat, Entry, Walk;
  }

  lemma HandledIsFramed(env: Env, t: Tree, role: int, input: Bytes)
    requires SmallFiles(t) && HandleOne(env, t, role, input).ok
    requires GetFits(env, t, Collect(input).req.path)
    ensures IsFrame(HandleOne(env, t, role, input).reply)
  {
    hide Exec, Collect, IsFrame, PutTarget, GetContent, Message;
    var req := Collect(input).req;
    FittingReplyIsFrame(env, t, role, req);
    ContentIsSmall(env, t, req.path);
  }

  lemma ContentIsSmall(env: Env, t: Tree, path: Bytes)
    requires SmallFiles(t)
    ensures GetContent(env, t, path).Some? ==> |GetContent(env, t, path).value| < UINT32_SIZE
  {
    hide InfoTarget;
  }

  /** A connection answers every request that returned 0 with one complete
      frame, in the order of the requests. */
  lemma {:induction false} RepliesAreFrames(env: Env, t: Tree, role: int, input: Bytes)
    requires SmallFiles(t) && PathsFit(env, t, role, input)
    ensures forall i :: 0 <= i < |Serve(env, t, role, input).replies| ==> IsFrame(Serve(env, t, role, input).replies[i])
    decreases |input|
  {
    hide HandleOne, IsFrame, Collect, GetFits;
    var o := HandleOne(env, t, role, input);
    if o.ok {
      OkIsCollected(env, t, role, input);
      HandledIsFramed(env, t, role, input);
      SmallFilesKept(env, t, role, input);
      RepliesAreFrames(env, o.tree, o.role, o.rest);
    }
  }

  lemma OkIsCollected(env: Env, t: Tree, role: int, input: Bytes)
    ensures HandleOne(env, t, role, input).ok ==> Collect(input).Request?
  {
  }

  /** Cut n frames off a stream by the lengths they declare. */
  function Unframe(s: Bytes, n: nat): Option<seq<Bytes>> {
    if n == 0 then Some([])
    else if |s| < 5 || |s| < 5 + GetU32(s[1..5]) then None
    else
      var k := 5 + GetU32(s[1..5]);
      match Unframe(s[k..], n - 1)
      case None => None
      case Some(frames) => Some([s[..k]] + frames)
  }

  /** The peer can cut the reply stream back into the replies. */
  lemma {:induction false} UnframeFlatten(replies: seq<Bytes>, tail: Bytes)
    requires forall i :: 0 <= i < |replies| ==> IsFrame(replies[i])
    ensures Unframe(Flatten(replies) + tail, |replies|) == Some(replies)
  {
    hide GetU32;
    if replies != [] {
      var first := replies[0];
      assert IsFrame(first);
      var after := Flatten(replies[1..]) + tail;
      var s := Flatten(replies) + tail;
      assert s == first + after;
      assert s[1..5] == first[1..5] && s[..|first|] == first && s[|first|..] == after;
      UnframeFlatten(replies[1..], tail);
      assert [first] + replies[1..] == replies;
    }
  }
}
