/** The client's end of the protocol: requests out, responses in, files streamed
    in both directions. */
module Client {
  import opened CBytes
  import opened Sockets
  import opened Requests
  import opened Streams
  import opened Protocol

  /** One write that must take everything. */
  method WriteOnce(conn: Connection, data: Bytes) returns (ok: bool)
    requires !conn.failed
    modifies conn`output, conn`accepts, conn`failed
    ensures ok == !conn.failed
    ensures Answered(old(conn.output), conn.output, data, conn.failed)
    ensures old(conn.accepts) == [] ==> ok && conn.accepts == []
  {
    if data == [] {
      return true;
    }
    var r, again := conn.Write(data);
    if r != |data| {
      conn.failed := true;
      return false;
    }
    assert data[..r] == data;
    return true;
  }

  /** send_request; NULL data is the empty sequence, which is not sent
      whatever size says. */
  method SendRequest(conn: Connection, cmd: Byte, path: Bytes, data: Bytes, size: nat) returns (rc: int)
    requires !conn.failed && (data == [] || size == |data|)
    modifies conn`output, conn`accepts, conn`failed
    ensures rc == if conn.failed then -1 else 0
    ensures Answered(old(conn.output), conn.output, RequestHead(cmd, path, size) + data, conn.failed)
    ensures old(conn.accepts) == [] ==> rc == 0 && conn.accepts == []
  {
    hide U16, U32, Answered;
    var header := [cmd] + U16(|path| % 0x1_0000) + U32(size % UINT32_SIZE);
    var ok := WriteOnce(conn, header);
    ghost var first := conn.output;
    if !ok {
      AnsweredFront(old(conn.output), conn.output, header, path);
      AnsweredFront(old(conn.output), conn.output, header + path, data);
      return -1;
    }
    ok := WriteOnce(conn, path);
    ghost var second := conn.output;
    AnsweredTwice(old(conn.output), first, conn.output, header, path, conn.failed);
    if !ok {
      AnsweredFront(old(conn.output), conn.output, header + path, data);
      return -1;
    }
    ok := WriteOnce(conn, data);
    AnsweredTwice(old(conn.output), second, conn.output, header + path, data, conn.failed);
    return if ok then 0 else -1;
  }

  /** The next read gets n bytes at once, if the peer sends that many. */
  predicate ArrivesWhole(arrivals: seq<ReadEvent>, n: nat) {
    arrivals == [] || (arrivals[0].Chunk? && arrivals[0].extra + 1 >= n)
  }

  function Later(arrivals: seq<ReadEvent>): seq<ReadEvent> {
    if arrivals == [] then [] else arrivals[1..]
  }

  /** A successful response at the front of what the server sends. */
  predicate SaysOk(input: Bytes) {
    |input| >= 5 && input[0] == RESP_OK
  }

  /** One read for the header: its status and declared length. */
  method ReceiveHeader(conn: Connection) returns (ok: bool, status: Byte, size: nat)
    modifies conn`input, conn`arrivals
    ensures ok ==> |old(conn.input)| >= 5 && status == old(conn.input)[0] && size == GetU32(old(conn.input)[1..5])
    ensures ok ==> conn.input == old(conn.input)[5..]
    ensures conn.arrivals == Later(old(conn.arrivals))
    ensures |old(conn.input)| >= 5 && ArrivesWhole(old(conn.arrivals), 5) ==> ok
  {
    hide GetU32, Overwritten;
    status, size := 0, 0;
    var header := new Byte[5];
    ghost var input, was := conn.input, header[..];
    var r, again := conn.Read(header, 0, 5);
    if r != 5 {
      return false, 0, 0;
    }
    ReadAtFront(was, header[..], input[..5]);
    assert header[..] == header[..][..5] == input[..5];
    assert header[1..5] == header[..][1..5] == input[..5][1..5] == input[1..5];
    return true, header[0], GetU32(header[1..5]);
  }

  /** A whole reply is on its way, header and body each in one piece. */
  predicate WholeReply(input: Bytes, arrivals: seq<ReadEvent>) {
    && |input| >= 5 && ArrivesWhole(arrivals, 5)
    && var n := GetU32(input[1..5]);
       5 + n <= |input| && ArrivesWhole(Later(arrivals), n)
  }

  /** receive_response: 0 for a success whose body is in the buffer (or still to
      be read when there is no buffer), -2 for AUTH_REQUIRED, -1 otherwise. */
  method ReceiveResponse(conn: Connection, buffer: array?<Byte>) returns (rc: int, size: nat)
    modifies conn`input, conn`arrivals, buffer
    ensures rc == 0 ==> SaysOk(old(conn.input)) && size == GetU32(old(conn.input)[1..5])
    ensures rc == 0 && buffer == null ==>
              conn.input == old(conn.input)[5..] && conn.arrivals == Later(old(conn.arrivals))
    ensures rc == 0 && buffer != null ==>
              && size <= buffer.Length && 5 + size <= |old(conn.input)|
              && buffer[..size] == old(conn.input)[5..5 + size] && conn.input == old(conn.input)[5 + size..]
    ensures SaysOk(old(conn.input)) && ArrivesWhole(old(conn.arrivals), 5) ==>
              var n := GetU32(old(conn.input)[1..5]);
              buffer == null ||
              (n <= buffer.Length && 5 + n <= |old(conn.input)| && ArrivesWhole(Later(old(conn.arrivals)), n)) ==>
                rc == 0
    ensures rc == -2 ==> |old(conn.input)| >= 5 && old(conn.input)[0] == RESP_AUTH_REQUIRED
    ensures |old(conn.input)| >= 5 && ArrivesWhole(old(conn.arrivals), 5) ==>
              && (rc == -2 <==> old(conn.input)[0] == RESP_AUTH_REQUIRED)
              && (old(conn.input)[0] !in {RESP_OK, RESP_AUTH_REQUIRED} ==> rc == -1)
    ensures WholeReply(old(conn.input), old(conn.arrivals)) && buffer != null ==>
              var n := GetU32(old(conn.input)[1..5]);
              n < buffer.Length ==>
                (conn.input == old(conn.input)[5 + n..] <==> old(conn.input)[0] != RESP_AUTH_REQUIRED || n == 0)
    ensures WholeReply(old(conn.input), old(conn.arrivals)) && buffer == null ==> conn.input == old(conn.input)[5..]
  {
    hide GetU32, Overwritten;
    ghost var input := conn.input;
    var ok, status;
    ok, status, size := ReceiveHeader(conn);
    if !ok {
      return -1, size;
    }
    if status != RESP_OK {
      if status == RESP_AUTH_REQUIRED {
        return -2, size;
      }
      if size > 0 && buffer != null && size < buffer.Length {
        var r, again := conn.Read(buffer, 0, size);
      }
      return -1, size;
    }
    if size > 0 && buffer != null {
      if size > buffer.Length {
        return -1, size;
      }
      ghost var rest, was := conn.input, buffer[..];
      var r, again := conn.Read(buffer, 0, size);
      if r != size {
        return -1, size;
      }
      ReadAtFront(was, buffer[..], rest[..size]);
      assert buffer[..size] == buffer[..][..size];
    }
    return 0, size;
  }

  // AUTH

  /** strncpy of at most 63 bytes into a 64-byte field of an uninitialised
      structure: the last byte is what happened to be there. */
  function AuthField(s: Bytes, last: Byte): (r: Bytes)
    ensures |r| == 64
  {
    Cut(s, 63) + seq(63 - |Cut(s, 63)|, _ => NUL) + [last]
  }

  /** The auth_message_t that client_authenticate sends. */
  function AuthMessage(name: Bytes, password: Bytes, last: Byte, final: Byte): (r: Bytes)
    ensures |r| == AUTH_SIZE
  {
    AuthField(name, last) + AuthField(password, final)
  }

  lemma ShortField(s: Bytes, last: Byte, tail: Bytes)
    requires NUL !in s && |s| < 63
    ensures CStr(AuthField(s, last) + tail) == s
  {
    var zeros: Bytes := seq(63 - |s|, _ => NUL);
    assert AuthField(s, last) + tail == s + (zeros + [last] + tail);
    CStrOf(s, zeros + [last] + tail);
  }

  lemma LongField(s: Bytes, tail: Bytes)
    requires NUL !in s && |s| >= 63
    ensures CStr(AuthField(s, NUL) + tail) == s[..63]
    ensures |CStr(AuthField(s, SPACE) + tail)| > 63
  {
    var front := s[..63];
    assert AuthField(s, NUL) + tail == front + ([NUL] + tail);
    CStrOf(front, [NUL] + tail);
    var read := AuthField(s, SPACE) + tail;
    assert forall i :: 0 <= i < 64 ==> read[i] == if i < 63 then s[i] else SPACE;
    assert IndexOf(read, NUL) >= 64;
  }

  /** The server reads the credentials that were given, whatever the two bytes
      left uninitialised, exactly when both are shorter than 63 bytes. */
  lemma CredentialsArrive(name: Bytes, password: Bytes)
    requires NUL !in name && NUL !in password
    ensures (forall last: Byte, final: Byte ::
               CStr(AuthMessage(name, password, last, final)) == name &&
               CStr(AuthMessage(name, password, last, final)[64..]) == password) <==>
            |name| < 63 && |password| < 63
  {
    hide AuthField, CStr;
    forall last: Byte, final: Byte
      ensures AuthMessage(name, password, last, final)[64..] == AuthField(password, final) + []
    {
      assert AuthMessage(name, password, last, final)[64..] == AuthField(password, final);
    }
    if |name| < 63 && |password| < 63 {
      forall last: Byte, final: Byte
        ensures CStr(AuthMessage(name, password, last, final)) == name
        ensures CStr(AuthMessage(name, password, last, final)[64..]) == password
      {
        ShortField(name, last, AuthField(password, final));
        ShortField(password, final, []);
      }
    } else if |name| >= 63 {
      LongField(name, AuthField(password, NUL));
      assert CStr(AuthMessage(name, password, NUL, NUL)) != CStr(AuthMessage(name, password, SPACE, NUL));
    } else {
      LongField(password, []);
      assert CStr(AuthMessage(name, password, NUL, NUL)[64..]) != CStr(AuthMessage(name, password, NUL, SPACE)[64..]);
    }
  }

  function AuthOf(name: Bytes, password: Bytes, last: Byte, final: Byte): Request {
    Requests.Request(CMD_AUTH, [], AuthMessage(name, password, last, final))
  }

  /** client_authenticate: true when the server's welcome has been received. */
  method Authenticate(conn: Connection, name: Bytes, password: Bytes, last: Byte, final: Byte) returns (done: bool)
    requires !conn.failed
    modifies conn
    ensures Answered(old(conn.output), conn.output, Encode(AuthOf(name, password, last, final)), conn.failed)
    ensures done ==> !conn.failed && SaysOk(old(conn.input))
  {
    hide RequestHead, Answered, GetU32, AuthMessage;
    var data := AuthMessage(name, password, last, final);
    var rc := SendRequest(conn, CMD_AUTH, [], data, AUTH_SIZE);
    if rc != 0 {
      return false;
    }
    var buffer := new Byte[BUFFER_SIZE];
    var size;
    rc, size := ReceiveResponse(conn, buffer);
    return rc == 0;
  }

  /** client_put_file of a file with this content, from the request on: true
      when the server's success message has been received. */
  method PutFile(conn: Connection, path: Bytes, content: Bytes) returns (done: bool)
    requires !conn.failed
    modifies conn
    ensures path != [] && path[|path| - 1] == SLASH ==> !done && conn.output == old(conn.output)
    ensures !(path != [] && path[|path| - 1] == SLASH) ==>
              Answered(old(conn.output), conn.output, Encode(Requests.Request(CMD_PUT, path, content)), conn.failed)
    ensures done ==> !conn.failed && SaysOk(old(conn.input))
    ensures !(path != [] && path[|path| - 1] == SLASH) ==>
              var input, arrivals := old(conn.input), old(conn.arrivals);
              (&& SaysOk(input) && old(conn.accepts) == [] && ArrivesWhole(arrivals, 5)
               && var n := GetU32(input[1..5]);
                  n <= BUFFER_SIZE && 5 + n <= |input| && ArrivesWhole(Later(arrivals), n)) ==> done
  {
    hide RequestHead, Answered, GetU32;
    if path != [] && path[|path| - 1] == SLASH {
      return false;
    }
    var ok := SendPut(conn, path, content);
    if !ok {
      return false;
    }
    var buffer := new Byte[BUFFER_SIZE];
    var rc, size := ReceiveResponse(conn, buffer);
    return rc == 0;
  }

  /** The request of client_put_file and the chunks behind it. */
  method SendPut(conn: Connection, path: Bytes, content: Bytes) returns (ok: bool)
    requires !conn.failed
    modifies conn`output, conn`accepts, conn`failed
    ensures ok == !conn.failed
    ensures Answered(old(conn.output), conn.output, Encode(Requests.Request(CMD_PUT, path, content)), conn.failed)
    ensures old(conn.accepts) == [] ==> ok
  {
    hide RequestHead, Answered;
    assert RequestHead(CMD_PUT, path, |content|) + [] == RequestHead(CMD_PUT, path, |content|);
    var rc := SendRequest(conn, CMD_PUT, path, [], |content|);
    ghost var middle := conn.output;
    if rc != 0 {
      AnsweredFront(old(conn.output), conn.output, RequestHead(CMD_PUT, path, |content|), content);
      return false;
    }
    ok := SendFile(conn, content);
    AnsweredTwice(old(conn.output), middle, conn.output, RequestHead(CMD_PUT, path, |content|), content, conn.failed);
  }

  /** The chunk loop of client_put_file. */
  method SendFile(conn: Connection, content: Bytes) returns (ok: bool)
    requires !conn.failed
    modifies conn`output, conn`accepts, conn`failed
    ensures ok == !conn.failed
    ensures Answered(old(conn.output), conn.output, content, conn.failed)
    ensures old(conn.accepts) == [] ==> ok
  {
    var remaining: nat := |content|;
    while remaining > 0
      invariant remaining <= |content| && !conn.failed
      invariant old(conn.accepts) == [] ==> conn.accepts == []
      invariant conn.output == old(conn.output) + content[..|content| - remaining]
    {
      var at := |content| - remaining;
      var n := if remaining < BUFFER_SIZE then remaining else BUFFER_SIZE;
      ghost var before := conn.output;
      assert content[..at] + content[at..at + n] == content[..at + n];
      assert before + content[at..at + n] == old(conn.output) + content[..at + n];
      var sent := SendChunk(conn, content[at..at + n]);
      if !sent {
        assert content[..at + n] <= content;
        return false;
      }
      remaining := remaining - n;
    }
    return true;
  }

  /** The write loop around one chunk; an interrupted write gives up here. */
  method SendChunk(conn: Connection, chunk: Bytes) returns (ok: bool)
    requires !conn.failed
    modifies conn`output, conn`accepts, conn`failed
    ensures ok == !conn.failed
    ensures Answered(old(conn.output), conn.output, chunk, conn.failed)
    ensures old(conn.accepts) == [] ==> ok && conn.accepts == []
  {
    var written := 0;
    while written < |chunk|
      invariant written <= |chunk| && !conn.failed
      invariant old(conn.accepts) == [] ==> conn.accepts == []
      invariant conn.output == old(conn.output) + chunk[..written]
    {
      var r, again := conn.Write(chunk[written..]);
      if r < 0 {
        conn.failed := true;
        return false;
      }
      assert chunk[..written] + chunk[written..][..r] == chunk[..written + r];
      written := written + r;
    }
    return true;
  }

  predicate NoneInterrupted(arrivals: seq<ReadEvent>) {
    forall i :: 0 <= i < |arrivals| ==> arrivals[i].Chunk?
  }

  /** The chunk loop of client_get_file: what has been written locally. */
  method ReceiveBody(conn: Connection, size: nat) returns (done: bool, local: Bytes)
    modifies conn`input, conn`arrivals
    ensures local <= old(conn.input) && |local| <= size
    ensures done ==> |local| == size
    ensures |old(conn.input)| >= size && NoneInterrupted(old(conn.arrivals)) ==> done
  {
    hide Overwritten, Delivered;
    local := [];
    var buffer := new Byte[BUFFER_SIZE];
    var remaining: nat := size;
    ghost var input := conn.input;
    while remaining > 0
      invariant |local| + remaining == size && input == local + conn.input
      invariant NoneInterrupted(old(conn.arrivals)) ==> NoneInterrupted(conn.arrivals)
    {
      ghost var ahead, was := conn.input, buffer[..];
      var r, again := conn.Read(buffer, 0, if remaining < BUFFER_SIZE then remaining else BUFFER_SIZE);
      if r <= 0 {
        return false, local;
      }
      ReadAtFront(was, buffer[..], ahead[..r]);
      assert buffer[..r] == buffer[..][..r];
      TakeMore(local, ahead, r);
      local := local + buffer[..r];
      remaining := remaining - r;
    }
    return true, local;
  }

  /** client_get_file: true when the whole file is there. For every way the
      body is split, what is there then is exactly the declared body. */
  method GetFile(conn: Connection, path: Bytes) returns (done: bool, local: Bytes)
    requires !conn.failed
    modifies conn
    ensures Answered(old(conn.output), conn.output, Encode(Requests.Request(CMD_GET, path, [])), conn.failed)
    ensures done ==>
              && !conn.failed && SaysOk(old(conn.input))
              && var n := GetU32(old(conn.input)[1..5]);
                 |old(conn.input)| >= 5 + n && local == old(conn.input)[5..5 + n]
    ensures (&& SaysOk(old(conn.input)) && |old(conn.input)| >= 5 + GetU32(old(conn.input)[1..5])
             && old(conn.accepts) == [] && ArrivesWhole(old(conn.arrivals), 5)
             && NoneInterrupted(old(conn.arrivals))) ==> done
  {
    hide RequestHead, Answered, GetU32;
    assert RequestHead(CMD_GET, path, 0) + [] == RequestHead(CMD_GET, path, 0);
    var rc := SendRequest(conn, CMD_GET, path, [], 0);
    if rc != 0 {
      return false, [];
    }
    done, local := FetchFile(conn);
  }

  /** The rest of client_get_file: the response header and the body behind it. */
  method FetchFile(conn: Connection) returns (done: bool, local: Bytes)
    modifies conn`input, conn`arrivals
    ensures done ==>
              && SaysOk(old(conn.input))
              && var n := GetU32(old(conn.input)[1..5]);
                 |old(conn.input)| >= 5 + n && local == old(conn.input)[5..5 + n]
    ensures (&& SaysOk(old(conn.input)) && |old(conn.input)| >= 5 + GetU32(old(conn.input)[1..5])
             && ArrivesWhole(old(conn.arrivals), 5) && NoneInterrupted(old(conn.arrivals))) ==> done
  {
    hide GetU32;
    ghost var input := conn.input;
    var rc, size := ReceiveResponse(conn, null);
    if rc != 0 {
      return false, [];
    }
    done, local := ReceiveBody(conn, size);
    assert done ==> local == input[5..][..size] == input[5..5 + size];
  }
}
