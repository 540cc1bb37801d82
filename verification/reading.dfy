/** What replies depend on: without symbolic links and without detours in request
    paths, only on the subtree at the served root. */
module Reading {
  import opened CBytes
  import opened Paths
  import opened Resolve
  import opened Answers
  import opened Files
  import opened Requests
  import opened Streams
  import opened Containment
  import opened Detours

  /** A request path whose answer depends on the subtree at the root alone. */
  predicate Plainly(top: Path, path: Bytes) {
    |path| < MAX_PATH_LENGTH && !Detour(top, path)
  }

  // The system calls on the answer

  /** A walk to one name below top, or to top itself. */
  ghost predicate SameNode(t: Tree, u: Tree, top: Path, a: Walked, b: Walked) {
    && SameEnd(a, b)
    && (a.Found? ==> a.at in t && a.at in u && t[a.at] == u[a.at])
    && (a.Missing? ==> top <= a.at)
  }

  lemma StepAgrees(t: Tree, u: Tree, top: Path, d: Path, name: Bytes, l: nat, m: nat)
    requires WellFormed(t) && WellFormed(u) && NoLinks(t) && NoLinks(u) && Agree(t, u, top)
    requires top != [] && top in t && (top <= d || d + [name] == top) && d in t
    ensures d in u && t[d].Dir? == u[d].Dir?
    ensures SameNode(t, u, top, Walk(t, d, [name], l), Walk(u, d, [name], m))
  {
    hide Walk;
    OneStep(t, d, name, l);
    OneStep(u, d, name, m);
    assert top in u;
    if d + [name] == top {
      EntryOfDirectory(t, d, name);
      EntryOfDirectory(u, d, name);
    } else {
      assert t[d] == u[d] && top <= d + [name];
      assert Up(d) in t && Up(d) in u && t[Up(d)] == u[Up(d)] by {
        UpAgrees(t, u, top, d);
      }
    }
  }

  lemma UpAgrees(t: Tree, u: Tree, top: Path, d: Path)
    requires WellFormed(t) && WellFormed(u) && Agree(t, u, top) && top <= d && d in t && d in u
    ensures Up(d) in t && Up(d) in u && t[Up(d)] == u[Up(d)]
  {
    if d != [] {
      assert t[Up(d)].Dir? && u[Up(d)].Dir?;
    }
  }

  /** What the answer in a buffer of n bytes means to the system calls. */
  lemma AnswerAgrees(place: Place, t: Tree, u: Tree, top: Path, rel: Bytes, n: nat)
    requires Alike(place, t, u, top) && Plainly(top, rel) && |Render(top)| < STREAM_PATH_SIZE <= n <= MAX_PATH_SIZE
    ensures FullPathIn(place, u, rel, n) == FullPathIn(place, t, rel, n)
    ensures FullPathIn(place, t, rel, n).Some? ==>
              var s := FullPathIn(place, t, rel, n).value;
              && SameNode(t, u, top, Paths.Resolve(t, place.cwd, s), Paths.Resolve(u, place.cwd, s))
              && Entry(t, place.cwd, s) == Entry(u, place.cwd, s)
              && (Entry(t, place.cwd, s).Some? ==> top <= Entry(t, place.cwd, s).value)
  {
    hide Walk, Split, WellFormed, NoLinks, Agree, FullPath, Render, SameNode, Detour, RootPath;
    StraightFullPath(place, t, u, top, rel);
    if FullPath(place, t, rel).Some? {
      if RootPath(place, t) == None {
        NoRootNoPath(place, t, rel);
      }
      RootIsNode(place, t);
      var d, name := AnswerShape(place, t, rel, top, n);
      StepAgrees(t, u, top, d, name, MAX_LINKS, MAX_LINKS);
      NoLinkAt(u, d);
      ResolveBelow(t, place.cwd, d, name);
      ResolveBelow(u, place.cwd, d, name);
    }
  }

  lemma NoLinkAt(t: Tree, p: Path)
    requires NoLinks(t) && p in t
    ensures !t[p].Link?
  {
  }

  lemma SameInfo(place: Place, t: Tree, u: Tree, top: Path, rel: Bytes)
    requires Alike(place, t, u, top) && Plainly(top, rel) && |Render(top)| < STREAM_PATH_SIZE
    ensures FileInfo(place, t, rel) == FileInfo(place, u, rel)
  {
    hide Walk, Split, FullPath, Render, Alike, Detour, Paths.Resolve, Entry, BaseName;
    AnswerAgrees(place, t, u, top, rel, MAX_PATH_SIZE);
  }

  lemma SameGet(env: Env, t: Tree, u: Tree, top: Path, rel: Bytes)
    requires Alike(env.place, t, u, top) && Plainly(top, rel) && |Render(top)| < STREAM_PATH_SIZE
    ensures GetReply(env, t, rel) == GetReply(env, u, rel)
  {
    hide Walk, Split, FullPath, Render, Alike, Detour, Paths.Resolve, Entry, FileInfo, Message, Header, Streamed;
    SameInfo(env.place, t, u, top, rel);
    AnswerAgrees(env.place, t, u, top, rel, STREAM_PATH_SIZE);
  }

  lemma SamePut(place: Place, t: Tree, u: Tree, top: Path, rel: Bytes)
    requires Alike(place, t, u, top) && Plainly(top, rel) && |Render(top)| < STREAM_PATH_SIZE
    ensures PutTarget(place, t, rel) == PutTarget(place, u, rel)
  {
    hide Walk, Split, FullPath, Render, Alike, Detour, Paths.Resolve, Entry;
    AnswerAgrees(place, t, u, top, rel, STREAM_PATH_SIZE);
  }

  lemma SameDelete(place: Place, t: Tree, u: Tree, top: Path, rel: Bytes) returns (e: Path)
    requires Alike(place, t, u, top) && Plainly(top, rel) && |Render(top)| < STREAM_PATH_SIZE
    ensures DeleteFile(place, t, rel).Some? <==> DeleteFile(place, u, rel).Some?
    ensures DeleteFile(place, t, rel).Some? ==>
              DeleteFile(place, t, rel) == Some(t - {e}) && DeleteFile(place, u, rel) == Some(u - {e})
  {
    assert Agree(t, u, top);
    hide Walk, Split, FullPath, Render, Alike, Detour, Paths.Resolve, Entry, Agree;
    AnswerAgrees(place, t, u, top, rel, MAX_PATH_SIZE);
    e := [];
    if FullPathIn(place, t, rel, MAX_PATH_SIZE).Some? {
      var s := FullPathIn(place, t, rel, MAX_PATH_SIZE).value;
      if Entry(t, place.cwd, s).Some? {
        e := Entry(t, place.cwd, s).value;
        SameRemoval(t, u, top, e);
      }
    }
  }

  lemma SameRemoval(t: Tree, u: Tree, top: Path, e: Path)
    requires Agree(t, u, top) && top <= e
    ensures e in t <==> e in u
    ensures forall directory :: RemoveEntry(t, e, directory).Some? <==> RemoveEntry(u, e, directory).Some?
  {
    assert IsEmpty(t, e) <==> IsEmpty(u, e) by {
      forall p | p != [] && Up(p) == e ensures p in t <==> p in u {
        assert top <= p;
      }
    }
  }

  lemma SameMkdir(place: Place, t: Tree, u: Tree, top: Path, rel: Bytes) returns (e: Path)
    requires Alike(place, t, u, top) && Plainly(top, rel) && |Render(top)| < STREAM_PATH_SIZE
    ensures CreateDirectory(place, t, rel).Some? <==> CreateDirectory(place, u, rel).Some?
    ensures CreateDirectory(place, t, rel).Some? ==>
              && e !in t && e !in u
              && CreateDirectory(place, t, rel) == Some(t[e := Dir])
              && CreateDirectory(place, u, rel) == Some(u[e := Dir])
  {
    assert Agree(t, u, top);
    hide Walk, Split, FullPath, Render, Alike, Detour, Paths.Resolve, Entry;
    AnswerAgrees(place, t, u, top, rel, MAX_PATH_SIZE);
    e := [];
    if FullPathIn(place, t, rel, MAX_PATH_SIZE).Some? {
      var s := FullPathIn(place, t, rel, MAX_PATH_SIZE).value;
      if Entry(t, place.cwd, s).Some? {
        e := Entry(t, place.cwd, s).value;
      }
    }
  }

  // LIST: the answer is not cut, so what it names is below the root

  /** With room for the root's name, a request's answer fits the 2048-byte buffer
      and what it names is at or below the root. */
  lemma AnswerIsBelow(place: Place, t: Tree, top: Path, rel: Bytes)
    requires Served(place, t) && RootPath(place, t) == Some(top) && top != [] && |Render(top)| < STREAM_PATH_SIZE
    requires NoLinks(t) && |rel| < MAX_PATH_LENGTH && FullPath(place, t, rel).Some?
    ensures var s := FullPath(place, t, rel).value;
            |s| < MAX_PATH_SIZE && (Stat(t, place.cwd, s).Some? ==> top <= Stat(t, place.cwd, s).value)
  {
    hide Walk, Split, WellFormed, NoLinks, Absolute, SkipSlashes, Render, AnswerFrom, FullPath, RootPath;
    RootIsNode(place, t);
    FullPathFrom(place, t, top, rel);
    var todo := Split(SkipSlashes(rel));
    if SkipSlashes(rel) == [] {
      ResolveNode(t, place.cwd, top);
    } else {
      AnswerFromPath(t, top, rel);
      WalksAreShort(t, top, rel);
      NoSlashes(SkipSlashes(rel));
      AnswerMeans(place, t, top, todo);
    }
  }

  lemma AnswerMeans(place: Place, t: Tree, top: Path, todo: seq<Bytes>)
    requires WellFormed(t) && NoLinks(t) && top in t && top != [] && todo != [] && AnswerPath(t, top, todo).Some?
    requires forall i :: 0 <= i < |todo| ==> SLASH !in todo[i]
    requires var w, f := WalkBelow(t, top, todo), WalkBelow(t, top, AllButLast(todo));
             && (!w.Fail? ==> |Render(w.at)| < MAX_PATH_SIZE)
             && (!f.Fail? ==> |Absolute(f.at)| + 1 + |todo[|todo| - 1]| < MAX_PATH_SIZE)
    ensures var s := Render(AnswerPath(t, top, todo).value);
            |s| < MAX_PATH_SIZE && (Stat(t, place.cwd, s).Some? ==> top <= Stat(t, place.cwd, s).value)
  {
    hide Walk, WellFormed, NoLinks, Absolute, Render;
    var w, f := WalkBelow(t, top, todo), WalkBelow(t, top, AllButLast(todo));
    var name := todo[|todo| - 1];
    if w.Found? {
      FoundOnTrail(t, top, todo, MAX_LINKS);
      EndInTree(t, top, todo);
      NoLinkAt(t, w.at);
      ResolveNode(t, place.cwd, w.at);
    } else {
      FoundOnTrail(t, top, AllButLast(todo), MAX_LINKS);
      EndInTree(t, top, AllButLast(todo));
      NoLinkAt(t, f.at);
      ResolveBelow(t, place.cwd, f.at, name);
      AbsoluteSnoc(f.at, name);
      RenderLength(f.at + [name]);
      LastStep(t, top, todo);
      LinklessEntry(t, f.at, name);
      OneStep(t, f.at, name, MAX_LINKS);
    }
  }

  lemma LinklessEntry(t: Tree, d: Path, name: Bytes)
    requires NoLinks(t)
    ensures d + [name] in t ==> !t[d + [name]].Link?
  {
  }

  /** Reading a directory at or below top yields valid names, and the same ones
      over trees that agree there. */
  ghost predicate LocalReaddir(env: Env, top: Path) {
    && (forall t, u, p :: top <= p && Agree(t, u, top) ==> env.readdir(t, p) == env.readdir(u, p))
    && (forall t, p, name :: name in env.readdir(t, p) ==> IsDots(name) || ValidName(name))
  }

  ghost predicate ListedNames(names: seq<Bytes>) {
    forall name :: name in names ==> IsDots(name) || ValidName(name)
  }

  lemma EntryAgrees(t: Tree, u: Tree, top: Path, cwd: Path, s: Bytes, p: Path, name: Bytes)
    requires WellFormed(t) && WellFormed(u) && NoLinks(t) && NoLinks(u) && Agree(t, u, top) && top != [] && top in t
    requires s != [] && |s| < MAX_PATH_SIZE && SLASH !in name && top <= p && p in t
    requires var a, b := Paths.Resolve(t, cwd, s), Paths.Resolve(u, cwd, s);
             a.Found? && a.at == p && b.Found? && b.at == p
    ensures var c := Cut(s + [SLASH] + name, MAX_PATH_SIZE - 1);
            SameNode(t, u, top, Paths.Resolve(t, cwd, c), Paths.Resolve(u, cwd, c))
  {
    hide Walk, Split, WellFormed, NoLinks;
    var c := Cut(s + [SLASH] + name, MAX_PATH_SIZE - 1);
    if |s| == MAX_PATH_SIZE - 1 {
      assert c == s;
    } else {
      var front := c[|s| + 1..];
      assert c == s + [SLASH] + front && front <= name;
      OneMore(t, cwd, s, front);
      OneMore(u, cwd, s, front);
      StepAgrees(t, u, top, p, front, Paths.Resolve(t, cwd, s).links, Paths.Resolve(u, cwd, s).links);
    }
  }

  lemma OneMore(t: Tree, cwd: Path, s: Bytes, name: Bytes)
    requires s != [] && SLASH !in name && Paths.Resolve(t, cwd, s).Found?
    ensures var a := Paths.Resolve(t, cwd, s);
            Paths.Resolve(t, cwd, s + [SLASH] + name) == Walk(t, a.at, [name], a.links)
  {
    hide Walk, Split;
    SplitAtSlash(s, name);
    SplitOne(name);
    WalkAppend(t, Start(cwd, s), Split(s), [name], MAX_LINKS);
  }

  lemma {:induction false} ListsAlike(t: Tree, u: Tree, top: Path, cwd: Path, s: Bytes, p: Path, names: seq<Bytes>,
                                      room: nat)
    requires WellFormed(t) && WellFormed(u) && NoLinks(t) && NoLinks(u) && Agree(t, u, top) && top != [] && top in t
    requires s != [] && |s| < MAX_PATH_SIZE && top <= p && p in t && ListedNames(names)
    requires var a, b := Paths.Resolve(t, cwd, s), Paths.Resolve(u, cwd, s);
             a.Found? && a.at == p && b.Found? && b.at == p
    ensures ListEntries(t, cwd, s, names, room) == ListEntries(u, cwd, s, names, room)
    decreases |names|
  {
    hide Paths.Resolve, WellFormed, NoLinks, Agree, ValidName;
    if names != [] && room > 0 {
      assert ListedNames(names[1..]);
      assert names[0] in names;
      if !IsDots(names[0]) {
        NameHasNoSlash(names[0]);
        EntryAgrees(t, u, top, cwd, s, p, names[0]);
        ListsAlike(t, u, top, cwd, s, p, names[1..], room - 1);
      }
      ListsAlike(t, u, top, cwd, s, p, names[1..], room);
    }
  }

  lemma NameHasNoSlash(name: Bytes)
    requires ValidName(name)
    ensures SLASH !in name
  {
  }

  lemma SameListing(env: Env, t: Tree, u: Tree, top: Path, rel: Bytes)
    requires Alike(env.place, t, u, top) && Plainly(top, rel) && |Render(top)| < STREAM_PATH_SIZE
    requires LocalReaddir(env, top)
    ensures Listing(env, t, rel) == Listing(env, u, rel)
  {
    hide Walk, Split, WellFormed, NoLinks, FullPath, Render, Detour, Paths.Resolve, Entry, RootPath, ListEntries;
    AnswerAgrees(env.place, t, u, top, rel, MAX_PATH_SIZE);
    if rel != [] && FullPath(env.place, t, rel).Some? {
      if RootPath(env.place, t) == None {
        NoRootNoPath(env.place, t, rel);
      }
      AnswerIsBelow(env.place, t, top, rel);
      RootIsNode(env.place, t);
      var s := FullPath(env.place, t, rel).value;
      assert FullPathIn(env.place, t, rel, MAX_PATH_SIZE) == Some(s);
      if Stat(t, env.place.cwd, s).Some? {
        var p := Stat(t, env.place.cwd, s).value;
        AnswerNotEmpty(env.place, t, s);
        assert ListedNames(env.readdir(t, p));
        ListsAlike(t, u, top, env.place.cwd, s, p, env.readdir(t, p), MAX_ENTRIES);
      }
    }
  }

  lemma AnswerNotEmpty(place: Place, t: Tree, s: Bytes)
    requires !Paths.Resolve(t, place.cwd, s).Fail?
    ensures s != []
  {
  }

  // What stays alike

  lemma {:induction false} LockStep(t: Tree, u: Tree, at: Path, todo: seq<Bytes>, l: nat, m: nat, q: Path)
    requires NoLinks(t) && NoLinks(u) && Walk(t, at, todo, l).Found? && Walk(u, at, todo, m).Found?
    ensures SameEnd(Walk(t - {q}, at, todo, l), Walk(u - {q}, at, todo, m))
    decreases |todo|
  {
    if todo != [] {
      var name := todo[0];
      var next := at + [name];
      if name == [] || name == [DOT] {
        LockStep(t, u, at, todo[1..], l, m, q);
      } else if name == DOTDOT {
        LockStep(t, u, Up(at), todo[1..], l, m, q);
      } else {
        LockStep(t, u, next, todo[1..], l, m, q);
      }
    }
  }

  lemma RootsAfterRemoval(place: Place, t: Tree, u: Tree, top: Path, q: Path)
    requires NoLinks(t) && NoLinks(u) && RootPath(place, t) == Some(top) && RootPath(place, u) == Some(top)
    ensures RootPath(place, t - {q}) == RootPath(place, u - {q})
    ensures RootIs(place, t - {q}, top)
  {
    hide Walk, Split, NoLinks;
    RemovalKeepsRoot(place, t, q, top);
    LockStep(t, u, Start(place.cwd, place.root), Split(place.root), MAX_LINKS, MAX_LINKS, q);
  }

  lemma AlikePut(place: Place, t: Tree, u: Tree, top: Path, rel: Bytes, content: Bytes)
    requires Alike(place, t, u, top) && PutTarget(place, t, rel).Some?
    requires PutTarget(place, u, rel) == PutTarget(place, t, rel)
    ensures var p := PutTarget(place, t, rel).value;
            Alike(place, t[p := File(content)], u[p := File(content)], top)
  {
    hide WellFormed, RootPath, PutTarget;
    if RootPath(place, t) == None {
      NoRootNoPath(place, t, rel);
    }
    PutKeepsTree(place, t, rel, content);
    PutKeepsTree(place, u, rel, content);
    PutKeepsRoot(place, t, rel, content);
    PutKeepsRoot(place, u, rel, content);
  }

  lemma AlikeDelete(place: Place, t: Tree, u: Tree, top: Path, rel: Bytes, e: Path)
    requires Alike(place, t, u, top)
    requires DeleteFile(place, t, rel) == Some(t - {e}) && DeleteFile(place, u, rel) == Some(u - {e})
    ensures Alike(place, t - {e}, u - {e}, top)
  {
    hide WellFormed, RootPath, DeleteFile;
    if RootPath(place, t) == None {
      NoRootNoPath(place, t, rel);
    }
    DeleteKeepsTree(place, t, rel);
    DeleteKeepsTree(place, u, rel);
    RootsAfterRemoval(place, t, u, top, e);
  }

  lemma AlikeMkdir(place: Place, t: Tree, u: Tree, top: Path, rel: Bytes, e: Path)
    requires Alike(place, t, u, top) && e !in t && e !in u
    requires CreateDirectory(place, t, rel) == Some(t[e := Dir]) && CreateDirectory(place, u, rel) == Some(u[e := Dir])
    ensures Alike(place, t[e := Dir], u[e := Dir], top)
  {
    hide WellFormed, RootPath, CreateDirectory;
    if RootPath(place, t) == None {
      NoRootNoPath(place, t, rel);
    }
    MkdirKeepsTree(place, t, rel);
    MkdirKeepsTree(place, u, rel);
    AdditionKeepsRoot(place, t, e, Dir);
    AdditionKeepsRoot(place, u, e, Dir);
  }

  // Whole requests and whole connections

  /** The effects of one request, seen by its client, are alike and leave the
      trees alike. */
  ghost predicate SameEffect(place: Place, e: Effect, f: Effect, top: Path) {
    e.ok == f.ok && e.reply == f.reply && e.role == f.role && Alike(place, e.tree, f.tree, top)
  }

  lemma ReaderAgrees(env: Env, t: Tree, u: Tree, role: int, req: Request, top: Path)
    requires Alike(env.place, t, u, top) && Plainly(top, req.path) && |Render(top)| < STREAM_PATH_SIZE
    requires LocalReaddir(env, top) && req.cmd !in {CMD_PUT, CMD_DELETE, CMD_MKDIR}
    ensures SameEffect(env.place, Exec(env, t, role, req), Exec(env, u, role, req), top)
  {
    hide Alike, Detour, Render, LocalReaddir, FullPath, PutTarget, DeleteFile, CreateDirectory, GetReply, Listing,
      FileInfo, Login, BaseName, PackAll, CheckPermission, Frame, Message, Gated, Welcome;
    SameInfo(env.place, t, u, top, req.path);
    SameGet(env, t, u, top, req.path);
    SameListing(env, t, u, top, req.path);
  }

  lemma WriterAgrees(env: Env, t: Tree, u: Tree, role: int, req: Request, top: Path)
    requires Alike(env.place, t, u, top) && Plainly(top, req.path) && |Render(top)| < STREAM_PATH_SIZE
    requires req.cmd in {CMD_PUT, CMD_DELETE, CMD_MKDIR}
    ensures SameEffect(env.place, Exec(env, t, role, req), Exec(env, u, role, req), top)
  {
    hide Alike, Detour, Render, FullPath, PutTarget, DeleteFile, CreateDirectory, GetReply, Listing,
      FileInfo, Login, BaseName, PackAll, CheckPermission, Frame, Message, Gated, Welcome;
    if req.cmd == CMD_PUT {
      StraightFullPath(env.place, t, u, top, req.path);
      SamePut(env.place, t, u, top, req.path);
      if PutTarget(env.place, t, req.path).Some? {
        AlikePut(env.place, t, u, top, req.path, req.data);
      }
    } else if req.cmd == CMD_DELETE {
      var e := SameDelete(env.place, t, u, top, req.path);
      if DeleteFile(env.place, t, req.path).Some? {
        AlikeDelete(env.place, t, u, top, req.path, e);
      }
    } else {
      var e := SameMkdir(env.place, t, u, top, req.path);
      if CreateDirectory(env.place, t, req.path).Some? {
        AlikeMkdir(env.place, t, u, top, req.path, e);
      }
    }
  }

  /** One request is answered alike and leaves the trees alike. */
  lemma ExecAgrees(env: Env, t: Tree, u: Tree, role: int, req: Request, top: Path)
    requires Alike(env.place, t, u, top) && Plainly(top, req.path) && |Render(top)| < STREAM_PATH_SIZE
    requires LocalReaddir(env, top)
    ensures SameEffect(env.place, Exec(env, t, role, req), Exec(env, u, role, req), top)
  {
    hide *;
    if req.cmd in {CMD_PUT, CMD_DELETE, CMD_MKDIR} {
      WriterAgrees(env, t, u, role, req, top);
    } else {
      ReaderAgrees(env, t, u, role, req, top);
    }
  }

  lemma HandleAgrees(env: Env, t: Tree, u: Tree, role: int, input: Bytes, top: Path)
    requires Alike(env.place, t, u, top) && |Render(top)| < STREAM_PATH_SIZE && LocalReaddir(env, top)
    requires Collect(input).Request? ==> Plainly(top, Collect(input).req.path)
    ensures var o, p := HandleOne(env, t, role, input), HandleOne(env, u, role, input);
            && o.ok == p.ok && o.reply == p.reply && o.role == p.role && o.rest == p.rest
            && Alike(env.place, o.tree, p.tree, top)
  {
    hide Alike, Detour, Render, LocalReaddir, Exec, PutTarget, CheckPermission, Gated, Message, Collect;
    match Collect(input)
    case Hangup =>
    case Request(req, total, rest) =>
      ExecAgrees(env, t, u, role, req, top);
      SamePut(env.place, t, u, top, req.path);
      if PutOpens(env, t, role, req).Some? {
        var got := Min(total - |req.data|, |rest|);
        AlikePut(env.place, t, u, top, req.path, req.data + rest[..got]);
      }
  }

  /** The request paths of the connection make no detours. */
  ghost predicate PlainSession(env: Env, t: Tree, role: int, input: Bytes, top: Path)
    decreases |input|
  {
    var o := HandleOne(env, t, role, input);
    && (Collect(input).Request? ==> Plainly(top, Collect(input).req.path))
    && (o.ok ==> PlainSession(env, o.tree, o.role, o.rest, top))
  }

  /** Over trees without links that agree at and below the root, a connection whose
      paths make no detours gets the same replies and roles. */
  lemma {:induction false} SessionsAgree(env: Env, t: Tree, u: Tree, role: int, input: Bytes, top: Path)
    requires Alike(env.place, t, u, top) && |Render(top)| < STREAM_PATH_SIZE && LocalReaddir(env, top)
    requires PlainSession(env, t, role, input, top)
    ensures var a, b := Serve(env, t, role, input), Serve(env, u, role, input);
            a.replies == b.replies && a.roles == b.roles && a.tail == b.tail && Alike(env.place, a.tree, b.tree, top)
    decreases |input|
  {
    hide Alike, Detour, Render, LocalReaddir, HandleOne, Collect;
    HandleAgrees(env, t, u, role, input, top);
    var o, p := HandleOne(env, t, role, input), HandleOne(env, u, role, input);
    if o.ok {
      SessionsAgree(env, o.tree, p.tree, o.role, o.rest, top);
    }
  }

  // From the bytes of a connection alone

  /** No two dots in a row. */
  predicate NoTwoDots(s: Bytes) {
    forall i :: 0 <= i < |s| - 1 ==> !(s[i] == DOT && s[i + 1] == DOT)
  }

  lemma {:induction false} NoDotsInSplit(s: Bytes)
    requires NoTwoDots(s)
    ensures DOTDOT !in Split(s)
    ensures Split(s)[0] != [] ==> s != [] && Split(s)[0][0] == s[0]
  {
    if s != [] {
      assert s[1..] == s[1..|s|];
      NoDotsInSlice(s, 1, |s|);
      NoDotsInSplit(s[1..]);
      var r := Split(s[1..]);
      if s[0] != SLASH {
        TwoDots(s[0], r[0]);
      }
    }
  }

  lemma TwoDots(b: Byte, tail: Bytes)
    ensures [b] + tail == DOTDOT <==> b == DOT && tail == [DOT]
  {
    assert |[b] + tail| == 1 + |tail|;
    assert ([b] + tail)[0] == b;
    assert tail == ([b] + tail)[1..];
  }

  lemma {:induction false} LevelWithoutUps(top: Path, at: Path, todo: seq<Bytes>)
    requires top <= at && DOTDOT !in todo
    ensures Level(top, at, todo)
    decreases |todo|
  {
    if todo != [] {
      LevelWithoutUps(top, StepTo(at, todo[0]), todo[1..]);
    }
  }

  lemma {:induction false} SkippedIsSuffix(rel: Bytes)
    ensures exists k :: 0 <= k <= |rel| && SkipSlashes(rel) == rel[k..]
  {
    if rel != [] && rel[0] == SLASH {
      SkippedIsSuffix(rel[1..]);
      var k :| 0 <= k <= |rel[1..]| && SkipSlashes(rel[1..]) == rel[1..][k..];
      assert rel[1..][k..] == rel[k + 1..];
    } else {
      assert rel[0..] == rel;
    }
  }

  lemma NoDotsInSlice(s: Bytes, a: nat, b: nat)
    requires a <= b <= |s| && NoTwoDots(s)
    ensures NoTwoDots(s[a..b])
  {
    var r := s[a..b];
    assert forall i :: 0 <= i < |r| ==> r[i] == s[a + i];
  }

  lemma NoDotsIsLevel(top: Path, path: Bytes)
    requires NoTwoDots(path)
    ensures !Detour(top, path)
  {
    hide Split, SkipSlashes, NoTwoDots;
    SkippedIsSuffix(path);
    var k :| 0 <= k <= |path| && SkipSlashes(path) == path[k..];
    assert path[k..] == path[k..|path|];
    NoDotsInSlice(path, k, |path|);
    NoDotsInSplit(SkipSlashes(path));
    LevelWithoutUps(top, top, Split(SkipSlashes(path)));
  }

  /** The path and what is left are parts of the input. */
  lemma CollectedIsPlain(input: Bytes, top: Path)
    requires NoTwoDots(input) && Collect(input).Request?
    ensures Plainly(top, Collect(input).req.path) && NoTwoDots(Collect(input).rest)
  {
    hide GetU16, GetU32, NoTwoDots, Detour;
    var start := HEADER_SIZE + GetU16(input[1..3]);
    var end := start + Window(start - HEADER_SIZE, GetU32(input[3..7]));
    var field := input[HEADER_SIZE..start];
    NoDotsInSlice(input, HEADER_SIZE, start);
    var path := CStr(field);
    assert path == field[0..|path|];
    NoDotsInSlice(field, 0, |path|);
    assert input[end..] == input[end..|input|];
    NoDotsInSlice(input, end, |input|);
    NoDotsIsLevel(top, path);
  }

  lemma RestIsPlain(env: Env, t: Tree, role: int, input: Bytes)
    requires Collect(input).Request? && NoTwoDots(Collect(input).rest)
    ensures NoTwoDots(HandleOne(env, t, role, input).rest)
  {
    hide Collect, Exec, PutOpens, Message, NoTwoDots;
    var c := Collect(input);
    if PutOpens(env, t, role, c.req).Some? {
      var got := Min(c.total - |c.req.data|, |c.rest|);
      assert c.rest[got..] == c.rest[got..|c.rest|];
      NoDotsInSlice(c.rest, got, |c.rest|);
      assert c.rest[0..0] == [];
      NoDotsInSlice(c.rest, 0, 0);
    }
  }

  /** A connection whose bytes hold no two dots in a row makes no detour, over any tree. */
  lemma {:induction false} NoTwoDotsIsPlain(env: Env, t: Tree, role: int, input: Bytes, top: Path)
    requires NoTwoDots(input)
    ensures PlainSession(env, t, role, input, top)
    decreases |input|
  {
    hide HandleOne, Collect, Plainly, NoTwoDots;
    var o := HandleOne(env, t, role, input);
    OkIsCollected(env, t, role, input);
    if Collect(input).Request? {
      CollectedIsPlain(input, top);
      if o.ok {
        RestIsPlain(env, t, role, input);
        NoTwoDotsIsPlain(env, o.tree, o.role, o.rest, top);
      }
    }
  }

  /** Over linkless trees the answer is not much longer than root and path. */
  lemma AnswerLength(place: Place, t: Tree, top: Path, rel: Bytes)
    requires Served(place, t) && RootPath(place, t) == Some(top) && top != [] && |Render(top)| < STREAM_PATH_SIZE
    requires NoLinks(t) && |rel| < MAX_PATH_LENGTH && FullPath(place, t, rel).Some?
    ensures |FullPath(place, t, rel).value| <= |Render(top)| + |rel| + 1
  {
    hide Walk, Split, WellFormed, NoLinks, Absolute, SkipSlashes, Render, AnswerFrom, FullPath, RootPath;
    RootIsNode(place, t);
    FullPathFrom(place, t, top, rel);
    if SkipSlashes(rel) != [] {
      var todo := Split(SkipSlashes(rel));
      AnswerFromPath(t, top, rel);
      WalksAreShort(t, top, rel);
      var w, f := WalkBelow(t, top, todo), WalkBelow(t, top, AllButLast(todo));
      if !w.Found? {
        AbsoluteSnoc(f.at, todo[|todo| - 1]);
        RenderLength(f.at + [todo[|todo| - 1]]);
      }
    }
  }

  /** Encoded requests whose paths leave room for the root's name never meet an
      answer that is cut. */
  lemma {:induction false} ShortPathsFit(env: Env, t: Tree, role: int, reqs: seq<Request>, top: Path)
    requires Served(env.place, t) && RootIs(env.place, t, top) && top != [] && NoLinks(t)
    requires Aligned(env, t, role, reqs)
    requires forall i :: 0 <= i < |reqs| ==> |Render(top)| + |reqs[i].path| + 1 < STREAM_PATH_SIZE
    ensures PathsFit(env, t, role, EncodeAll(reqs))
    decreases |reqs|
  {
    hide Exec, Encode, HandleOne, PutOpens, NoLinks, Served, RootIs, Collect, Render, FullPath;
    if reqs != [] {
      var rest := EncodeAll(reqs[1..]);
      var e := Exec(env, t, role, reqs[0]);
      WholeRequest(env, t, role, reqs[0], rest);
      PathCollected(reqs[0], rest);
      PathFits(env, t, reqs[0].path, top);
      if e.ok {
        RequestKeepsPlace(env, t, role, reqs[0], top);
        assert forall i :: 0 <= i < |reqs[1..]| ==> reqs[1..][i] == reqs[i + 1];
        ShortPathsFit(env, e.tree, e.role, reqs[1..], top);
      }
    } else {
      NothingCollected();
    }
  }

  lemma NothingCollected()
    ensures Collect([]).Hangup? && forall env: Env, t, role :: !HandleOne(env, t, role, []).ok
  {
  }

  lemma PathCollected(req: Request, rest: Bytes)
    requires Sendable(req)
    ensures var c := Collect(Encode(req) + rest); c.Request? ==> c.req.path == req.path
  {
    hide Encode;
    CollectEncoded(req, rest);
  }

  lemma PathFits(env: Env, t: Tree, path: Bytes, top: Path)
    requires Served(env.place, t) && RootIs(env.place, t, top) && top != [] && NoLinks(t)
    requires |Render(top)| + |path| + 1 < STREAM_PATH_SIZE
    ensures GetFits(env, t, path)
  {
    hide FullPath, RootPath, Served, NoLinks, Render;
    if RootPath(env.place, t) == None {
      NoRootNoPath(env.place, t, path);
    } else if FullPath(env.place, t, path).Some? {
      AnswerLength(env.place, t, top, path);
    }
  }

  lemma RequestKeepsPlace(env: Env, t: Tree, role: int, req: Request, top: Path)
    requires Served(env.place, t) && RootIs(env.place, t, top) && NoLinks(t)
    ensures var u := Exec(env, t, role, req).tree;
            Served(env.place, u) && RootIs(env.place, u, top) && NoLinks(u)
  {
    hide Exec, NoLinks, RootIs, WellFormed;
    ExecKeepsTree(env, t, role, req);
    ExecKeepsRoot(env, t, role, req, top);
    NoLinkIsMade(env, t, role, req);
  }
}
