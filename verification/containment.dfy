/** What the served root keeps in, and how request paths are normalised. */
module Containment {
  import opened CBytes
  import opened Paths
  import opened Resolve
  import opened Stability
  import opened Answers
  import opened Files
  import opened Requests
  import opened Streams

  // Slashes and idempotence

  lemma {:induction false} SlashesSkipped(slashes: Bytes, rel: Bytes)
    requires forall i :: 0 <= i < |slashes| ==> slashes[i] == SLASH
    ensures SkipSlashes(slashes + rel) == SkipSlashes(rel)
  {
    if slashes == [] {
      assert slashes + rel == rel;
    } else {
      assert (slashes + rel)[1..] == slashes[1..] + rel;
      SlashesSkipped(slashes[1..], rel);
    }
  }

  /** Leading slashes never change what a path resolves to. */
  lemma LeadingSlashesIgnored(place: Place, t: Tree, slashes: Bytes, rel: Bytes)
    requires forall i :: 0 <= i < |slashes| ==> slashes[i] == SLASH
    ensures FullPath(place, t, slashes + rel) == FullPath(place, t, rel)
  {
    hide Resolved;
    SlashesSkipped(slashes, rel);
  }

  /** The components of a node below the root, after a root name that may end
      in a slash. */
  lemma RootThenNode(t: Tree, cwd: Path, root: Bytes, base: Bytes, x: Bytes, top: Path, rest: Path)
    requires WellFormed(t) && Realpath(t, cwd, root) == Some(top) && top != []
    requires top + rest in t && !t[top + rest].Link? && rest != []
    requires root != [] && base == if root[|root| - 1] != SLASH then root + [SLASH] else root
    requires Split(x) == rest
    ensures Paths.Resolve(t, cwd, base + x).Found? && Paths.Resolve(t, cwd, base + x).at == top + rest
  {
    hide Walk, WellFormed, Split;
    var y := base[..|base| - 1];
    assert base == y + [SLASH] && base + x == y + [SLASH] + x;
    RootWithoutSlash(t, cwd, root, y, top);
    var l := Paths.Resolve(t, cwd, y).links;
    SplitAtSlash(y, x);
    WalkAppend(t, Start(cwd, y), Split(y), rest, MAX_LINKS);
    WalkNode(t, top, rest, l);
  }

  lemma RootWithoutSlash(t: Tree, cwd: Path, root: Bytes, y: Bytes, top: Path)
    requires WellFormed(t) && Realpath(t, cwd, root) == Some(top) && top != []
    requires root == y || root == y + [SLASH]
    ensures y != [] && Paths.Resolve(t, cwd, y).Found? && Paths.Resolve(t, cwd, y).at == top
  {
    assert root == y + [SLASH] && y == [] ==> root == Render([]);
    if root == y + [SLASH] {
      SplitAtSlash(y, []);
      assert y + [SLASH] + [] == root && Split([]) == [[]];
      WalkAppend(t, Start(cwd, root), Split(y), [[]], MAX_LINKS);
      if y == [] {
        ResolveNode(t, cwd, []);
        assert false;
      }
    }
  }

  /** Resolving the root-relative rest of a result gives that result again. */
  lemma ResolutionIsIdempotent(place: Place, t: Tree, rel: Bytes, top: Path)
    requires Served(place, t) && RootPath(place, t) == Some(top) && top != []
    requires FullPath(place, t, rel).Some? && !FallsBack(place, t, rel)
    requires |place.root| + |FullPath(place, t, rel).value| - |Render(top)| < MAX_PATH_SIZE
    ensures var r := FullPath(place, t, rel).value;
            |Render(top)| <= |r| && FullPath(place, t, r[|Render(top)|..]) == Some(r)
  {
    hide Walk, Split, WellFormed, TempPath, LastSlash, Resolved;
    var q := ExistingShape(place, t, rel, top);
    var rest := q[|top|..];
    assert top + rest == q;
    AbsoluteAppend(top, rest);
    var r := Render(q);
    var relative := r[|Render(top)|..];
    assert relative == Absolute(rest);
    RelativeLocates(place, t, top, rest);
    assert Realpath(t, place.cwd, TempPath(place.root, relative)) == Some(q);
    var p := ExistingShape(place, t, relative, top);
  }

  lemma RelativeLocates(place: Place, t: Tree, top: Path, rest: Path)
    requires Served(place, t) && RootPath(place, t) == Some(top) && top != []
    requires top + rest in t && !t[top + rest].Link? && |place.root| + |Absolute(rest)| < MAX_PATH_SIZE
    ensures Locate(place, t, Absolute(rest)).Found? && Locate(place, t, Absolute(rest)).at == top + rest
  {
    hide Walk, Split, WellFormed, TempPath;
    var relative := Absolute(rest);
    if rest == [] {
      assert relative == [] && top + rest == top;
      assert TempPath(place.root, []) == place.root by {
        RootOnly(place.root);
      }
    } else {
      hide Absolute;
      var x := relative[1..];
      PlainRest(t, top, rest);
      SplitRelative(rest, x);
      var base := if place.root[|place.root| - 1] != SLASH then place.root + [SLASH] else place.root;
      TempOfRelative(place.root, relative, base, x);
      RootThenNode(t, place.cwd, place.root, base, x, top, rest);
    }
  }

  lemma RootOnly(root: Bytes)
    requires |root| < 1024
    ensures TempPath(root, []) == root
  {
  }

  lemma PlainRest(t: Tree, top: Path, rest: Path)
    requires WellFormed(t) && top + rest in t && rest != []
    ensures Plain(rest) && |Absolute(rest)| >= 2 && Absolute(rest)[0] == SLASH && Absolute(rest)[1] != SLASH
  {
    hide WellFormed;
    NodeNamesAreValid(t, top + rest);
    assert forall i :: 0 <= i < |rest| ==> rest[i] == (top + rest)[|top| + i];
    AbsoluteSecond(rest);
    AbsoluteStarts(rest);
  }

  lemma TempOfRelative(root: Bytes, relative: Bytes, base: Bytes, x: Bytes)
    requires 0 < |root| < 1024 && 2 <= |relative| && |root| + |relative| < MAX_PATH_SIZE
    requires relative == [SLASH] + x && x[0] != SLASH
    requires base == if root[|root| - 1] != SLASH then root + [SLASH] else root
    ensures TempPath(root, relative) == base + x
  {
    assert relative[1..] == x;
    assert SkipSlashes(x) == x;
  }

  lemma SplitRelative(rest: Path, x: Bytes)
    requires rest != [] && Plain(rest) && Absolute(rest) == [SLASH] + x
    ensures Split(x) == rest
  {
    SplitAbsolute(rest);
    SplitAtSlash([], x);
    assert [] + [SLASH] + x == Absolute(rest) && Split([]) == [[]];
    assert ([[]] + Split(x))[1..] == ([[]] + rest)[1..];
  }

  // The served root keeps every change in

  /** A PUT that gets as far as opening its file opens one at or below the root;
      PutIsContained says when that is so. */
  predicate OpensBelow(env: Env, t: Tree, role: int, req: Request, top: Path) {
    PutOpens(env, t, role, req).Some? ==> top <= PutOpens(env, t, role, req).value
  }

  lemma NoRootNoPath(place: Place, t: Tree, path: Bytes)
    requires RootPath(place, t).None?
    ensures FullPath(place, t, path).None? && PutTarget(place, t, path).None?
    ensures DeleteFile(place, t, path).None? && CreateDirectory(place, t, path).None?
  {
    hide Resolved;
  }

  ghost predicate RootIs(place: Place, t: Tree, top: Path) {
    RootPath(place, t) == Some(top) || RootPath(place, t) == None
  }

  /** One request changes nothing outside the root. */
  lemma ExecStaysBelow(env: Env, t: Tree, role: int, req: Request, top: Path)
    requires Served(env.place, t) && RootIs(env.place, t, top) && |Render(top)| < MAX_PATH_SIZE
    requires OpensBelow(env, t, role, req, top)
    ensures SameOutside(t, Exec(env, t, role, req).tree, top)
  {
    hide FullPath, PutTarget, DeleteFile, CreateDirectory, GetReply, Listing, FileInfo, Login, BaseName, PackAll,
      WellFormed, CheckPermission, Say, Frame, RootPath, Gated, Message;
    if PutOpens(env, t, role, req).Some? {
      PutOpensExec(env, t, role, req);
    } else if RootPath(env.place, t) == None {
      NoRootNoPath(env.place, t, req.path);
    } else {
      if DeleteFile(env.place, t, req.path).Some? {
        var q := DeleteRemovesOne(env.place, t, req.path, top);
      }
      if CreateDirectory(env.place, t, req.path).Some? {
        var q := MkdirAddsOne(env.place, t, req.path, top);
      }
    }
  }

  /** The root's name goes on naming the same node, or nothing once that node
      or one its name passes through has been deleted. */
  lemma ExecKeepsRoot(env: Env, t: Tree, role: int, req: Request, top: Path)
    requires Served(env.place, t) && RootIs(env.place, t, top)
    ensures RootIs(env.place, Exec(env, t, role, req).tree, top)
  {
    hide FullPath, PutTarget, DeleteFile, CreateDirectory, GetReply, Listing, FileInfo, Login, BaseName, PackAll,
      WellFormed, CheckPermission, Say, Frame, RootPath, Extends, Message;
    if RootPath(env.place, t) == None {
      NoRootNoPath(env.place, t, req.path);
    } else {
      if PutTarget(env.place, t, req.path).Some? {
        PutKeepsRoot(env.place, t, req.path, req.data);
      }
      if DeleteFile(env.place, t, req.path).Some? {
        var q := DeleteRemovesOne(env.place, t, req.path, top);
        RemovalKeepsRoot(env.place, t, q, top);
      }
      if CreateDirectory(env.place, t, req.path).Some? {
        var q := MkdirAddsOne(env.place, t, req.path, top);
        AdditionKeepsRoot(env.place, t, q, Dir);
      }
    }
  }

  lemma PutKeepsRoot(place: Place, t: Tree, path: Bytes, content: Bytes)
    requires Served(place, t) && RootPath(place, t).Some? && PutTarget(place, t, path).Some?
    ensures RootPath(place, t[PutTarget(place, t, path).value := File(content)]) == RootPath(place, t)
  {
    hide PutTarget, RootPath, WellFormed;
    var p := PutTarget(place, t, path).value;
    PutTargetSound(place, t, path, p);
    AddedNode(t, p, File(content));
    PlaceStable(place, t, t[p := File(content)]);
  }

  lemma AdditionKeepsRoot(place: Place, t: Tree, q: Path, node: Node)
    requires Served(place, t) && WellFormed(t[q := node]) && q !in t && RootPath(place, t).Some?
    ensures RootPath(place, t[q := node]) == RootPath(place, t)
  {
    hide WellFormed, RootPath;
    PlaceStable(place, t, t[q := node]);
  }

  lemma RemovalKeepsRoot(place: Place, t: Tree, q: Path, top: Path)
    requires RootPath(place, t) == Some(top)
    ensures RootIs(place, t - {q}, top)
  {
    hide Walk, Split;
    ResolveStable(t - {q}, t, place.cwd, place.root);
  }

  lemma HandledStaysBelow(env: Env, t: Tree, role: int, input: Bytes, top: Path)
    requires Served(env.place, t) && RootIs(env.place, t, top) && |Render(top)| < MAX_PATH_SIZE
    requires Collect(input).Request? ==> OpensBelow(env, t, role, Collect(input).req, top)
    ensures var u := HandleOne(env, t, role, input).tree;
            SameOutside(t, u, top) && RootIs(env.place, u, top) && Served(env.place, u)
  {
    hide Exec, Collect, PutTarget, CheckPermission, WellFormed, Message, RootPath, Gated;
    HandleKeepsTree(env, t, role, input);
    match Collect(input)
    case Hangup =>
    case Request(req, total, rest) =>
      if PutOpens(env, t, role, req).Some? {
        var got := Min(total - |req.data|, |rest|);
        if RootPath(env.place, t) == None {
          NoRootNoPath(env.place, t, req.path);
        }
        PutKeepsRoot(env.place, t, req.path, req.data + rest[..got]);
      } else {
        ExecStaysBelow(env, t, role, req, top);
        ExecKeepsRoot(env, t, role, req, top);
      }
  }

  // Trees without symbolic links

  ghost predicate NoLinks(t: Tree) {
    forall p :: p in t ==> !t[p].Link?
  }

  /** The links at and below top are relative and go up nowhere. */
  ghost predicate LevelLinks(t: Tree, top: Path) {
    forall p :: p in t && top <= p && t[p].Link? ==>
      (t[p].target != [] ==> t[p].target[0] != SLASH) && DOTDOT !in Split(t[p].target)
  }

  /** From below top such links never lead out. */
  lemma {:induction false} LevelWalkStays(t: Tree, top: Path, at: Path, todo: seq<Bytes>, links: nat)
    requires LevelLinks(t, top) && top <= at && DOTDOT !in todo
    ensures var r := Walk(t, at, todo, links); !r.Fail? ==> top <= r.at
    decreases links, |todo|
  {
    hide Split;
    if todo != [] && at in t && t[at].Dir? {
      var name := todo[0];
      var next := at + [name];
      if name == [] || name == [DOT] {
        LevelWalkStays(t, top, at, todo[1..], links);
      } else if next in t {
        if t[next].Link? {
          var target := t[next].target;
          if links > 0 && target != [] {
            LevelWalkStays(t, top, at, Split(target) + todo[1..], links - 1);
          }
        } else {
          LevelWalkStays(t, top, next, todo[1..], links);
        }
      }
    }
  }

  lemma LevelLinkEnd(t: Tree, cwd: Path, top: Path, d: Path, name: Bytes)
    requires WellFormed(t) && LevelLinks(t, top) && d in t && !t[d].Link? && SLASH !in name
    requires top in t && !t[top].Link? && (top <= d || d + [name] == top)
    requires EndsInLink(t, cwd, Render(d + [name])) && !LinkEnd(t, cwd, Render(d + [name])).Fail?
    ensures top <= LinkEnd(t, cwd, Render(d + [name])).at
  {
    hide Walk, Split, WellFormed, Render;
    ResolveBelow(t, cwd, d, name);
    var e := d + [name];
    assert Up(e) == d && top <= e;
    LevelWalkStays(t, top, d, Split(t[e].target), MAX_LINKS - 1);
  }

  /** When the links at and below the root are level, and there is room for the
      root's name, every PUT opens a file at or below the root: a path that is cut
      still names something there. */
  lemma LevelOpensBelow(env: Env, t: Tree, role: int, req: Request, top: Path)
    requires Served(env.place, t) && RootIs(env.place, t, top) && |Render(top)| < STREAM_PATH_SIZE
    requires LevelLinks(t, top)
    ensures OpensBelow(env, t, role, req, top)
  {
    hide WellFormed, FullPath, RootPath, Render, CheckPermission, Gated, Entry, PutTarget, LevelLinks, EndsInLink,
      LinkEnd;
    if PutOpens(env, t, role, req).Some? {
      if RootPath(env.place, t) == None {
        NoRootNoPath(env.place, t, req.path);
      } else {
        PutTargetSound(env.place, t, req.path, PutOpens(env, t, role, req).value);
        PutIsContained(env.place, t, req.path, top, PutOpens(env, t, role, req).value);
        LevelAnswer(env.place, t, req.path, top);
      }
    }
  }

  /** The answer ends in no link, or in one that leads at or below the root. */
  lemma LevelAnswer(place: Place, t: Tree, rel: Bytes, top: Path)
    requires Served(place, t) && RootPath(place, t) == Some(top) && |Render(top)| < STREAM_PATH_SIZE
    requires LevelLinks(t, top) && PutTarget(place, t, rel).Some? && FullPath(place, t, rel).Some?
    ensures var s := FullPathIn(place, t, rel, STREAM_PATH_SIZE).value;
            top == [] || (EndsInLink(t, place.cwd, s) ==>
              !LinkEnd(t, place.cwd, s).Fail? && top <= LinkEnd(t, place.cwd, s).at)
  {
    hide WellFormed, FullPath, RootPath, Render, LevelLinks, EndsInLink, LinkEnd, Walk, Split;
    if top != [] {
      RootIsNode(place, t);
      var d, name := AnswerShape(place, t, rel, top, STREAM_PATH_SIZE);
      var s := Render(d + [name]);
      if EndsInLink(t, place.cwd, s) {
        FollowsLink(t, place.cwd, d, name);
        LevelLinkEnd(t, place.cwd, top, d, name);
      }
    }
  }

  /** No request makes a link, so that the links stay level. */
  lemma LinksStayLevel(env: Env, t: Tree, role: int, req: Request, top: Path)
    requires LevelLinks(t, top)
    ensures LevelLinks(Exec(env, t, role, req).tree, top)
  {
    hide GetReply, Listing, FileInfo, Login, Say, BaseName, PackAll, FullPath, PutTarget, Stat, Entry, Walk,
      CheckPermission, Message, Frame, Split;
  }

  lemma HandlingKeepsLevel(env: Env, t: Tree, role: int, input: Bytes, top: Path)
    requires LevelLinks(t, top)
    ensures LevelLinks(HandleOne(env, t, role, input).tree, top)
  {
    hide Exec, Collect, PutOpens, Message, Split;
    match Collect(input)
    case Hangup =>
    case Request(req, total, rest) => LinksStayLevel(env, t, role, req, top);
  }

  /** No request makes a link. */
  lemma NoLinkIsMade(env: Env, t: Tree, role: int, req: Request)
    requires NoLinks(t)
    ensures NoLinks(Exec(env, t, role, req).tree)
  {
    hide GetReply, Listing, FileInfo, Login, Say, BaseName, PackAll, FullPath, PutTarget, Stat, Entry, Walk,
      CheckPermission, Message, Frame;
  }

  /** When the links at and below the root are level no connection, whatever bytes
      it sends in whatever role, changes anything outside the root. */
  lemma {:induction false} SessionStaysBelow(env: Env, t: Tree, role: int, input: Bytes, top: Path)
    requires Served(env.place, t) && RootIs(env.place, t, top) && |Render(top)| < STREAM_PATH_SIZE
    requires LevelLinks(t, top)
    ensures SameOutside(t, Serve(env, t, role, input).tree, top)
    decreases |input|
  {
    hide HandleOne, Collect, RootIs, Served, LevelLinks, OpensBelow, Render;
    var c := Collect(input);
    if c.Request? {
      LevelOpensBelow(env, t, role, c.req, top);
    }
    HandledStaysBelow(env, t, role, input, top);
    HandlingKeepsLevel(env, t, role, input, top);
    var o := HandleOne(env, t, role, input);
    if o.ok {
      SessionStaysBelow(env, o.tree, o.role, o.rest, top);
    }
  }

  /** Without symbolic links the fallback branch is always clean. */
  lemma NoLinksIsClean(place: Place, t: Tree, path: Bytes)
    requires NoLinks(t)
    ensures Clean(place, t, path)
  {
    hide Walk, Split, TempPath;
  }

  /** Without symbolic links a PUT's path is resolved once and tested for ancestry. */
  lemma LinklessTarget(place: Place, t: Tree, path: Bytes, top: Path)
    requires Served(place, t) && RootPath(place, t) == Some(top) && top != [] && NoLinks(t) && Short(place, t, path)
    ensures PutTarget(place, t, path) == ContainedTarget(t, top, Locate(place, t, path))
  {
    hide Clean, Short, PutTarget, Locate, RootPath, NoLinks, ContainedTarget;
    NoLinksIsClean(place, t, path);
    PutTargetRefines(place, t, path, top);
  }

  // The limit of the fallback branch

  /** The file that a PUT opens is the entry that get_full_path's answer denotes,
      as it stands in the caller's buffer, exactly when that entry is no link. */
  lemma OpensWhatIsNamed(place: Place, t: Tree, rel: Bytes)
    requires WellFormed(t) && PutTarget(place, t, rel).Some?
    ensures var s := FullPathIn(place, t, rel, STREAM_PATH_SIZE).value;
            Entry(t, place.cwd, s) == PutTarget(place, t, rel) <==> !EndsInLink(t, place.cwd, s)
  {
    hide Walk, Split, WellFormed, FullPath, Entry;
    OpensTheEntry(t, place.cwd, FullPathIn(place, t, rel, STREAM_PATH_SIZE).value);
  }

  const NAME_S: Bytes := [115]
  const NAME_L: Bytes := [108]
  const NAME_O: Bytes := [111]

  /** "/" with the directory "s", which holds the link "l" to the absent "/o". */
  const DANGLING: Tree := map[[] := Dir, [NAME_S] := Dir, [NAME_S, NAME_L] := Link([SLASH] + NAME_O)]

  const AT_S: Place := Place([SLASH] + NAME_S, [])

  /** With a dangling link as its last component a PUT passes the containment
      test and creates the link's target outside the root: the fallback
      re-appends the component without resolving it. */
  lemma DanglingLinkEscapes()
    ensures WellFormed(DANGLING) && RootPath(AT_S, DANGLING) == Some([NAME_S])
    ensures PutTarget(AT_S, DANGLING, NAME_L) == Some([NAME_O])
    ensures !([NAME_S] <= [NAME_O]) && !Clean(AT_S, DANGLING, NAME_L)
  {
    hide Walk, Split, LastSlash, TempPath, Render, WellFormed, DANGLING;
    WalksOfExample();
    ExampleResolves();
    ExampleTemp();
    RendersOfExample();
    assert NAME_S[0] != NAME_O[0];
    assert [NAME_S][0] != [NAME_O][0];
  }

  const TEMP: Bytes := [SLASH] + NAME_S + [SLASH] + NAME_L

  lemma ExampleResolves()
    ensures Paths.Resolve(DANGLING, [], [SLASH] + NAME_S) == Found([NAME_S], MAX_LINKS)
    ensures Paths.Resolve(DANGLING, [], TEMP) == Missing([NAME_O])
    ensures [NAME_S] + [NAME_L] in DANGLING && DANGLING[[NAME_S] + [NAME_L]].Link?
  {
    hide Walk, Split;
    SplitsOfExample();
    WalksOfExample();
    assert [NAME_S] + [NAME_L] == [NAME_S, NAME_L];
  }

  lemma ExampleTemp()
    ensures TempPath(AT_S.root, NAME_L) == TEMP
    ensures LastSlash(TEMP) == 2 && TEMP[..2] == [SLASH] + NAME_S && TEMP[3..] == NAME_L
    ensures Cut(Cut([SLASH] + NAME_S + [SLASH], PATH_MAX - 1) + NAME_L, PATH_MAX - 1) == TEMP
    ensures Cut(TEMP, STREAM_PATH_SIZE - 1) == TEMP && BelowRoot(TEMP, [SLASH] + NAME_S)
  {
    assert TEMP[2] == SLASH;
  }

  lemma SplitsOfExample()
    ensures Split([SLASH] + NAME_S) == [[], NAME_S]
    ensures Split([SLASH] + NAME_O) == [[], NAME_O]
    ensures Split(TEMP) == [[], NAME_S, NAME_L]
  {
    SplitAtSlash([], NAME_S);
    SplitAtSlash([], NAME_O);
    SplitOne(NAME_S);
    SplitOne(NAME_O);
    SplitOne(NAME_L);
    SplitOne([]);
    SplitAtSlash([SLASH] + NAME_S, NAME_L);
    assert [] + [SLASH] + NAME_S == [SLASH] + NAME_S && [] + [SLASH] + NAME_O == [SLASH] + NAME_O;
  }

  lemma WalksOfExample()
    ensures WellFormed(DANGLING)
    ensures Walk(DANGLING, [], [[], NAME_S], MAX_LINKS) == Found([NAME_S], MAX_LINKS)
    ensures Walk(DANGLING, [], [[], NAME_S, NAME_L], MAX_LINKS) == Missing([NAME_O])
  {
    hide Split;
    assert Up([NAME_S]) == [] && Up([NAME_S, NAME_L]) == [NAME_S];
    var t := DANGLING;
    assert [] + [NAME_S] == [NAME_S] && [NAME_S] + [NAME_L] == [NAME_S, NAME_L] && [] + [NAME_O] == [NAME_O];
    assert [NAME_O] !in t;
    SplitsOfExample();
    assert Walk(t, [], [[], NAME_O], MAX_LINKS - 1) == Walk(t, [], [NAME_O], MAX_LINKS - 1) == Missing([NAME_O]) by {
      assert [[], NAME_O][1..] == [NAME_O];
    }
    assert [[], NAME_O] + [] == [[], NAME_O];
    assert [NAME_L][1..] == [];
    assert Walk(t, [NAME_S], [NAME_L], MAX_LINKS) == Missing([NAME_O]);
    assert [[], NAME_S, NAME_L][1..] == [NAME_S, NAME_L] && [NAME_S, NAME_L][1..] == [NAME_L];
    assert Walk(t, [], [NAME_S, NAME_L], MAX_LINKS) == Walk(t, [NAME_S], [NAME_L], MAX_LINKS);
    assert [[], NAME_S][1..] == [NAME_S] && [NAME_S][1..] == [];
    assert Walk(t, [], [NAME_S], MAX_LINKS) == Found([NAME_S], MAX_LINKS);
  }

  lemma RendersOfExample()
    ensures Render([NAME_S]) == [SLASH] + NAME_S
  {
    AbsoluteSnoc([], NAME_S);
    assert [] + [NAME_S] == [NAME_S];
  }
}
