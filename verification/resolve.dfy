/** get_full_path: from a request's path to a pathname below the served root. */
module Resolve {
  import opened CBytes
  import opened Paths

  /** The configured root directory and the directory the server runs in. */
  datatype Place = Place(root: Bytes, cwd: Path)

  const MAX_PATH_SIZE: nat := 2048
  const STREAM_PATH_SIZE: nat := 1024

  function SkipSlashes(s: Bytes): Bytes {
    if s != [] && s[0] == SLASH then SkipSlashes(s[1..]) else s
  }

  /** The root, a slash when the root does not end in one, and the request's path. */
  function TempPath(root: Bytes, rel: Bytes): (r: Bytes)
    ensures |r| < MAX_PATH_SIZE
  {
    var start := Cut(root, MAX_PATH_SIZE - 1);
    var tail := SkipSlashes(rel);
    if tail == [] then start
    else
      var base := if start != [] && start[|start| - 1] != SLASH then start + [SLASH] else start;
      Cut(Cut(base, MAX_PATH_SIZE - 1) + tail, MAX_PATH_SIZE - 1)
  }

  /** strrchr(s, '/'), or -1. */
  function LastSlash(s: Bytes): (k: int)
    ensures -1 <= k < |s|
    ensures k >= 0 ==> s[k] == SLASH
    ensures forall i :: k < i < |s| ==> s[i] != SLASH
  {
    if s == [] then -1
    else if s[|s| - 1] == SLASH then |s| - 1
    else
      var front := s[..|s| - 1];
      assert forall i :: 0 <= i < |front| ==> s[i] == front[i];
      LastSlash(front)
  }

  function RootPath(place: Place, t: Tree): Option<Path> {
    Realpath(t, place.cwd, place.root)
  }

  /** What resolved_path holds before the containment test. */
  function Resolved(place: Place, t: Tree, temp: Bytes): Option<Bytes> {
    match Realpath(t, place.cwd, temp)
    case Some(p) => Some(Render(p))
    case None =>
      var k := LastSlash(temp);
      if k < 0 then None
      else match Realpath(t, place.cwd, temp[..k])
        case None => None
        case Some(d) => Some(Cut(Cut(Render(d) + [SLASH], PATH_MAX - 1) + temp[k + 1..], PATH_MAX - 1))
  }

  function FullPath(place: Place, t: Tree, rel: Bytes): Option<Bytes> {
    match Resolved(place, t, TempPath(place.root, rel))
    case None => None
    case Some(r) =>
      match RootPath(place, t)
      case None => None
      case Some(top) => if BelowRoot(r, Render(top)) then Some(r) else None
  }

  /** The root directory's name fits its field of the configuration. */
  ghost predicate Served(place: Place, t: Tree) {
    WellFormed(t) && |place.root| < 1024
  }

  // What the system calls do with a pathname

  function Stat(t: Tree, cwd: Path, s: Bytes): Option<Path> {
    match Paths.Resolve(t, cwd, s)
    case Found(p, _) => Some(p)
    case _ => None
  }

  /** fopen(s, "wb"): the file that is emptied or created. */
  function OpenWrite(t: Tree, cwd: Path, s: Bytes): Option<Path> {
    match Paths.Resolve(t, cwd, s)
    case Found(p, _) => if p in t && t[p].File? then Some(p) else None
    case Missing(p) => Some(p)
    case Fail => None
  }

  function AllButLast<T>(s: seq<T>): seq<T>
    requires s != []
  {
    s[..|s| - 1]
  }

  /** The directory entry a pathname names, its last component not followed. */
  function Entry(t: Tree, cwd: Path, s: Bytes): Option<Path> {
    if s == [] then None
    else
      var todo := Split(s);
      var name := todo[|todo| - 1];
      match Walk(t, Start(cwd, s), AllButLast(todo), MAX_LINKS)
      case Found(d, _) => if d in t && t[d].Dir? && ValidName(name) then Some(d + [name]) else None
      case _ => None
  }

  // Pathnames made of a directory's own name and one more component

  lemma SplitBelow(t: Tree, d: Path, name: Bytes)
    requires WellFormed(t) && d in t && SLASH !in name
    ensures Render(d + [name]) == Absolute(d) + [SLASH] + name
    ensures Split(Render(d + [name])) == [[]] + d + [name]
    ensures AllButLast(Split(Render(d + [name]))) == [[]] + d
  {
    hide WellFormed, Split, Absolute;
    AbsoluteSnoc(d, name);
    NodeNamesAreValid(t, d);
    assert forall i :: 0 <= i < |d| ==> ValidName(d[i]);
    SplitAbsolute(d);
    SplitOne(name);
    SplitAtSlash(Absolute(d), name);
  }

  lemma ResolveBelow(t: Tree, cwd: Path, d: Path, name: Bytes)
    requires WellFormed(t) && d in t && !t[d].Link? && SLASH !in name
    ensures Render(d + [name]) == Absolute(d) + [SLASH] + name
    ensures Paths.Resolve(t, cwd, Render(d + [name])) == Walk(t, d, [name], MAX_LINKS)
    ensures Entry(t, cwd, Render(d + [name])) ==
            if t[d].Dir? && ValidName(name) then Some(d + [name]) else None
  {
    assert [] in t && t[[]].Dir?;
    hide WellFormed, Split, Absolute, Render;
    SplitBelow(t, d, name);
    assert [] + d == d;
    WalkNode(t, [], d, MAX_LINKS);
    assert ([[]] + d)[1..] == d;
    assert Walk(t, [], [[]] + d, MAX_LINKS) == Found(d, MAX_LINKS);
    WalkAppend(t, [], [[]] + d, [name], MAX_LINKS);
  }

  lemma RootHasNoEntry(t: Tree, cwd: Path)
    requires WellFormed(t)
    ensures Entry(t, cwd, Render([])) == None
  {
    hide Walk, Split, WellFormed;
    SplitOne([]);
    SplitAtSlash([], []);
    assert Render([]) == [] + [SLASH] + [];
  }

  lemma ResolveNode(t: Tree, cwd: Path, p: Path)
    requires WellFormed(t) && p in t && !t[p].Link?
    ensures Paths.Resolve(t, cwd, Render(p)) == Found(p, MAX_LINKS)
    ensures Entry(t, cwd, Render(p)) == if p == [] then None else Some(p)
  {
    ResolveRender(t, cwd, p);
    if p == [] {
      RootHasNoEntry(t, cwd);
    } else {
      assert Up(p) + [Last(p)] == p;
      EntryOfDirectory(t, Up(p), Last(p));
      hide Walk, Split, Render, Absolute, Entry, Paths.Resolve;
      ResolveBelow(t, cwd, Up(p), Last(p));
    }
  }

  // The fallback branch

  /** How the two halves of a pathname with a slash resolve. */
  lemma ResolveHalves(t: Tree, cwd: Path, temp: Bytes)
    requires LastSlash(temp) > 0
    ensures var k := LastSlash(temp);
            Paths.Resolve(t, cwd, temp) ==
            match Paths.Resolve(t, cwd, temp[..k])
            case Found(d, l) => Walk(t, d, [temp[k + 1..]], l)
            case _ => Fail
  {
    var k := LastSlash(temp);
    var a, b := temp[..k], temp[k + 1..];
    assert temp == a + [SLASH] + b;
    SplitAtSlash(a, b);
    SplitOne(b);
    WalkAppend(t, Start(cwd, temp), Split(a), [b], MAX_LINKS);
  }

  lemma StartsSound(place: Place, t: Tree, s: Bytes)
    requires WellFormed(t)
    ensures var r := Paths.Resolve(t, place.cwd, s);
            && (r.Found? ==> r.at in t && !t[r.at].Link?)
            && (r.Missing? ==> r.at !in t && r.at != [] && ValidName(Last(r.at)) && Up(r.at) in t && t[Up(r.at)].Dir?)
  {
    if s != [] {
      WalkSound(t, Start(place.cwd, s), Split(s), MAX_LINKS);
    }
  }

  /** The node that a name without a slash denotes in the directory d, when it
      is not a link: it does not matter how many links may be followed. */
  lemma OneStep(t: Tree, d: Path, name: Bytes, links: nat)
    requires d + [name] in t ==> !t[d + [name]].Link?
    ensures Walk(t, d, [name], links) ==
            if d !in t || !t[d].Dir? then Fail
            else if name == [] || name == [DOT] then Found(d, links)
            else if name == DOTDOT then Found(Up(d), links)
            else if d + [name] in t then Found(d + [name], links)
            else if ValidName(name) then Missing(d + [name])
            else Fail
  {
    assert [name][1..] == [];
  }

  // Containment

  /** get_full_path with room for n characters in the caller's buffer. */
  function FullPathIn(place: Place, t: Tree, rel: Bytes, n: nat): Option<Bytes>
    requires n > 0
  {
    match FullPath(place, t, rel)
    case None => None
    case Some(r) => Some(Cut(r, n - 1))
  }

  ghost predicate FallsBack(place: Place, t: Tree, rel: Bytes) {
    Realpath(t, place.cwd, TempPath(place.root, rel)).None?
  }

  lemma EntryTest(t: Tree, d: Path, name: Bytes, top: Path)
    requires WellFormed(t) && top in t && top != [] && d in t && SLASH !in name
    requires d == [] ==> name != []
    ensures BelowRoot(Render(d + [name]), Render(top)) <==> top <= d + [name]
  {
    NodeNamesAreValid(t, d);
    NodeNamesAreValid(t, top);
    assert forall i :: 0 <= i < |d| ==> ValidName(d[i]);
    assert forall i :: 0 <= i < |top| ==> ValidName(top[i]);
    ByteTestIsAncestry(d + [name], top);
  }

  lemma NodeTest(t: Tree, p: Path, top: Path)
    requires WellFormed(t) && top in t && top != [] && p in t
    ensures BelowRoot(Render(p), Render(top)) <==> top <= p
  {
    NodeNamesAreValid(t, p);
    NodeNamesAreValid(t, top);
    assert forall i :: 0 <= i < |p| ==> ValidName(p[i]);
    assert forall i :: 0 <= i < |top| ==> ValidName(top[i]);
    ByteTestIsAncestry(p, top);
  }

  /** The fallback of an entry of the top directory starts with two slashes. */
  lemma DoubleSlashTest(t: Tree, name: Bytes, top: Path)
    requires WellFormed(t) && top in t && top != []
    ensures !BelowRoot([SLASH] + [SLASH] + name, Render(top))
  {
    NodeNamesAreValid(t, top);
    assert forall i :: 0 <= i < |top| ==> ValidName(top[i]);
    AbsoluteSecond(top);
    assert ([SLASH] + [SLASH] + name)[1] == SLASH;
  }

  lemma RootIsNode(place: Place, t: Tree)
    requires Served(place, t) && RootPath(place, t).Some?
    ensures RootPath(place, t).value in t && !t[RootPath(place, t).value].Link?
  {
    StartsSound(place, t, place.root);
  }

  lemma FallbackShape(place: Place, t: Tree, rel: Bytes, top: Path) returns (d: Path, name: Bytes)
    requires Served(place, t) && RootPath(place, t) == Some(top) && top != []
    requires FallsBack(place, t, rel) && FullPath(place, t, rel).Some?
    requires |FullPath(place, t, rel).value| < PATH_MAX - 1
    ensures var temp := TempPath(place.root, rel);
            var k := LastSlash(temp);
            k > 0 && Realpath(t, place.cwd, temp[..k]) == Some(d) && name == temp[k + 1..]
    ensures d in t && !t[d].Link? && SLASH !in name
    ensures FullPath(place, t, rel).value == Render(d + [name])
    ensures top <= d + [name]
  {
    hide Walk, Paths.Resolve, Split, WellFormed;
    var temp := TempPath(place.root, rel);
    RootIsNode(place, t);
    d, name := ResolvedShape(place, t, temp);
    assert FullPath(place, t, rel).value == Render(d) + [SLASH] + name;
    if d == [] {
      assert Render([]) + [SLASH] + name == [SLASH] + [SLASH] + name;
      DoubleSlashTest(t, name, top);
      assert false;
    }
    AbsoluteSnoc(d, name);
    EntryTest(t, d, name, top);
  }

  lemma ResolvedShape(place: Place, t: Tree, temp: Bytes) returns (d: Path, name: Bytes)
    requires Served(place, t) && Realpath(t, place.cwd, temp).None? && Resolved(place, t, temp).Some?
    ensures var k := LastSlash(temp);
            k > 0 && Realpath(t, place.cwd, temp[..k]) == Some(d) && name == temp[k + 1..]
    ensures d in t && !t[d].Link? && SLASH !in name
    ensures Resolved(place, t, temp).value == Cut(Render(d) + [SLASH] + name, PATH_MAX - 1)
  {
    hide Walk, Split, WellFormed, Render;
    var k := LastSlash(temp);
    assert temp[..0] == [];
    d := Realpath(t, place.cwd, temp[..k]).value;
    name := temp[k + 1..];
    StartsSound(place, t, temp[..k]);
    CutTwice(Render(d) + [SLASH], name, PATH_MAX - 1);
  }

  lemma CutTwice(a: Bytes, b: Bytes, n: nat)
    ensures Cut(Cut(a, n) + b, n) == Cut(a + b, n)
  {
  }

  /** A successful get_full_path yields the pathname of a node, or of a would-be
      entry of a node, that is at or below the served root; or the root's own
      pathname, cut off from a longer one. */
  lemma FullPathIsContained(place: Place, t: Tree, rel: Bytes, top: Path) returns (q: Path)
    requires Served(place, t) && RootPath(place, t) == Some(top) && FullPath(place, t, rel).Some?
    ensures var r := FullPath(place, t, rel).value;
            if FallsBack(place, t, rel)
            then q != [] && Up(q) in t && !t[Up(q)].Link? && SLASH !in Last(q) &&
                 r == Cut(Render(Up(q)) + [SLASH] + Last(q), PATH_MAX - 1)
            else q in t && !t[q].Link? && r == Render(q)
    ensures top <= q || FullPath(place, t, rel).value == Render(top)
  {
    hide Walk, Split, WellFormed, Absolute, Resolved;
    var temp := TempPath(place.root, rel);
    RootIsNode(place, t);
    if FallsBack(place, t, rel) {
      var d, name := ResolvedShape(place, t, temp);
      q := d + [name];
      assert Up(q) == d;
      if top != [] {
        FallbackIsBelow(t, d, name, top);
      }
    } else {
      StartsSound(place, t, temp);
      q := Realpath(t, place.cwd, temp).value;
      ResolvedFound(place, t, temp, q);
      if top != [] {
        NodeTest(t, q, top);
      }
    }
  }

  lemma ResolvedFound(place: Place, t: Tree, temp: Bytes, q: Path)
    requires Realpath(t, place.cwd, temp) == Some(q)
    ensures Resolved(place, t, temp) == Some(Render(q))
  {
  }

  /** What passes the byte test after it was cut is below the root, or is the root. */
  lemma FallbackIsBelow(t: Tree, d: Path, name: Bytes, top: Path)
    requires WellFormed(t) && top in t && top != [] && d in t && SLASH !in name && |Render(top)| < PATH_MAX
    requires BelowRoot(Cut(Render(d) + [SLASH] + name, PATH_MAX - 1), Render(top))
    ensures top <= d + [name] || Cut(Render(d) + [SLASH] + name, PATH_MAX - 1) == Render(top)
  {
    hide WellFormed, Absolute;
    var x := Render(d) + [SLASH] + name;
    var r := Cut(x, PATH_MAX - 1);
    if d == [] {
      assert r == [SLASH] + [SLASH] + r[2..];
      DoubleSlashTest(t, r[2..], top);
      assert false;
    } else if |r| > |Render(top)| {
      AbsoluteSnoc(d, name);
      assert BelowRoot(x, Render(top));
      EntryTest(t, d, name, top);
    }
  }

  lemma ExistingShape(place: Place, t: Tree, rel: Bytes, top: Path) returns (q: Path)
    requires Served(place, t) && RootPath(place, t) == Some(top) && top != []
    requires !FallsBack(place, t, rel)
    ensures Realpath(t, place.cwd, TempPath(place.root, rel)) == Some(q)
    ensures q in t && !t[q].Link?
    ensures FullPath(place, t, rel) == if top <= q then Some(Render(q)) else None
  {
    hide Walk, Split, WellFormed;
    var temp := TempPath(place.root, rel);
    StartsSound(place, t, temp);
    RootIsNode(place, t);
    q := Realpath(t, place.cwd, temp).value;
    NodeTest(t, q, top);
  }

  // The node a PUT opens

  /** Where a PUT writes: get_full_path into 1024 bytes, then fopen. */
  function PutTarget(place: Place, t: Tree, rel: Bytes): Option<Path> {
    match FullPathIn(place, t, rel, STREAM_PATH_SIZE)
    case None => None
    case Some(s) => OpenWrite(t, place.cwd, s)
  }

  function Locate(place: Place, t: Tree, rel: Bytes): Walked {
    Paths.Resolve(t, place.cwd, TempPath(place.root, rel))
  }

  /** In the fallback branch the last component is re-appended unresolved;
      here it is not the name of a link. */
  ghost predicate Clean(place: Place, t: Tree, rel: Bytes) {
    var temp := TempPath(place.root, rel);
    var k := LastSlash(temp);
    FallsBack(place, t, rel) && k > 0 && Paths.Resolve(t, place.cwd, temp[..k]).Found? ==>
      var e := Paths.Resolve(t, place.cwd, temp[..k]).at + [temp[k + 1..]];
      e in t ==> !t[e].Link?
  }

  /** The pathnames involved fit the 1024-byte buffers of GET and PUT. */
  ghost predicate Short(place: Place, t: Tree, rel: Bytes) {
    && (FullPath(place, t, rel).Some? ==> |FullPath(place, t, rel).value| < STREAM_PATH_SIZE)
    && (!Locate(place, t, rel).Fail? ==> |Render(Locate(place, t, rel).at)| < STREAM_PATH_SIZE)
  }

  /** The one-step reading of a PUT's path: resolve it as fopen would, and
      refuse what is not below the root. */
  function ContainedTarget(t: Tree, top: Path, w: Walked): Option<Path> {
    match w
    case Found(p, _) => if p in t && t[p].File? && top <= p then Some(p) else None
    case Missing(p) => if top <= p then Some(p) else None
    case Fail => None
  }

  /** realpath, the parent fallback, the byte test and fopen together are one
      resolution followed by a tree-ancestry test. */
  lemma PutTargetRefines(place: Place, t: Tree, rel: Bytes, top: Path)
    requires Served(place, t) && RootPath(place, t) == Some(top) && top != []
    requires Clean(place, t, rel) && Short(place, t, rel)
    ensures PutTarget(place, t, rel) == ContainedTarget(t, top, Locate(place, t, rel))
  {
    hide Walk, Split, WellFormed, Absolute;
    if FallsBack(place, t, rel) {
      PutTargetFallback(place, t, rel, top);
    } else {
      var p := ExistingShape(place, t, rel, top);
      ResolveNode(t, place.cwd, p);
    }
  }

  lemma PutTargetFallback(place: Place, t: Tree, rel: Bytes, top: Path)
    requires Served(place, t) && RootPath(place, t) == Some(top) && top != []
    requires Clean(place, t, rel) && Short(place, t, rel) && FallsBack(place, t, rel)
    ensures PutTarget(place, t, rel) == ContainedTarget(t, top, Locate(place, t, rel))
  {
    hide Walk, Paths.Resolve, Split, WellFormed, Absolute;
    var w := Locate(place, t, rel);
    assert !w.Found?;
    if FullPath(place, t, rel).Some? {
      var d, name := FallbackShape(place, t, rel, top);
      var l := FallbackLocates(place, t, rel, d, name);
      EntryTarget(t, place.cwd, d, name, top, l);
    } else if w.Missing? && top <= w.at {
      MissingIsFullPath(place, t, rel, top, w.at);
      assert false;
    }
  }

  lemma EntryTarget(t: Tree, cwd: Path, d: Path, name: Bytes, top: Path, l: nat)
    requires WellFormed(t) && d in t && !t[d].Link? && SLASH !in name
    requires d + [name] in t ==> !t[d + [name]].Link?
    requires top <= d + [name] && !Walk(t, d, [name], l).Found?
    ensures OpenWrite(t, cwd, Render(d + [name])) == ContainedTarget(t, top, Walk(t, d, [name], l))
  {
    hide Walk, Paths.Resolve, Split, Absolute, LastSlash, TempPath;
    ResolveBelow(t, cwd, d, name);
    OneStep(t, d, name, MAX_LINKS);
    OneStep(t, d, name, l);
  }

  lemma FallbackLocates(place: Place, t: Tree, rel: Bytes, d: Path, name: Bytes) returns (l: nat)
    requires Clean(place, t, rel) && FallsBack(place, t, rel)
    requires var temp := TempPath(place.root, rel);
             var k := LastSlash(temp);
             k > 0 && Realpath(t, place.cwd, temp[..k]) == Some(d) && name == temp[k + 1..]
    ensures Locate(place, t, rel) == Walk(t, d, [name], l)
    ensures d + [name] in t ==> !t[d + [name]].Link?
  {
    hide Walk, Split, TempPath, LastSlash;
    var temp := TempPath(place.root, rel);
    ResolveHalves(t, place.cwd, temp);
    l := Paths.Resolve(t, place.cwd, temp[..LastSlash(temp)]).links;
  }

  /** The path handed to realpath has a slash after its first character. */
  lemma HasSlash(place: Place, t: Tree, rel: Bytes, top: Path)
    requires Served(place, t) && RootPath(place, t) == Some(top) && top != []
    requires SkipSlashes(rel) != []
    ensures LastSlash(TempPath(place.root, rel)) > 0
  {
    hide Served, RootPath, TempPath, SkipSlashes, LastSlash;
    RootIsLonger(place, t, top);
    RootThenSlash(place.root, rel);
  }

  /** The name of a root other than "/" is neither empty nor a slash. */
  lemma RootIsLonger(place: Place, t: Tree, top: Path)
    requires Served(place, t) && RootPath(place, t) == Some(top) && top != []
    ensures place.root != [] && place.root != [SLASH] && |place.root| < 1024
  {
    assert [] in t && t[[]].Dir?;
    hide Walk, Split, WellFormed, Absolute;
    if place.root == [SLASH] {
      assert Render([]) == [SLASH];
      ResolveNode(t, place.cwd, []);
    }
  }

  lemma RootThenSlash(root: Bytes, rel: Bytes)
    requires 0 < |root| < 1024 && SkipSlashes(rel) != []
    ensures var j := if root[|root| - 1] == SLASH then |root| - 1 else |root|;
            |TempPath(root, rel)| > j && TempPath(root, rel)[j] == SLASH
  {
    hide SkipSlashes;
  }

  /** A missing entry below the root gets past get_full_path. */
  lemma MissingIsFullPath(place: Place, t: Tree, rel: Bytes, top: Path, p: Path)
    requires Served(place, t) && RootPath(place, t) == Some(top) && top != []
    requires Clean(place, t, rel) && Locate(place, t, rel) == Missing(p)
    requires |Render(p)| < PATH_MAX && top <= p
    ensures FullPath(place, t, rel) == Some(Render(p))
  {
    hide Walk, Split, TempPath, LastSlash, Resolved, WellFormed;
    RootIsNode(place, t);
    MissingHasTail(place, t, rel);
    HasSlash(place, t, rel, top);
    var temp := TempPath(place.root, rel);
    assert FallsBack(place, t, rel);
    MissingResolved(place, t, temp, top, p);
  }

  lemma MissingHasTail(place: Place, t: Tree, rel: Bytes)
    requires |place.root| < 1024 && RootPath(place, t).Some? && Locate(place, t, rel).Missing?
    ensures SkipSlashes(rel) != []
  {
    hide Walk, Split, WellFormed, LastSlash;
  }

  lemma MissingResolved(place: Place, t: Tree, temp: Bytes, top: Path, p: Path)
    requires Served(place, t) && LastSlash(temp) > 0
    requires Paths.Resolve(t, place.cwd, temp) == Missing(p) && |Render(p)| < PATH_MAX
    requires var e := Paths.Resolve(t, place.cwd, temp[..LastSlash(temp)]);
             e.Found? && e.at + [temp[LastSlash(temp) + 1..]] in t ==> !t[e.at + [temp[LastSlash(temp) + 1..]]].Link?
    requires top in t && top != [] && top <= p
    ensures Resolved(place, t, temp) == Some(Render(p))
    ensures BelowRoot(Render(p), Render(top))
  {
    var d, name := MissingHalves(place, t, temp, p);
    assert d == [] ==> top == p;
    StartsSound(place, t, temp);
    assert d != [];
    AbsoluteSnoc(d, name);
    EntryTest(t, d, name, top);
    ResolvedMissing(place, t, temp, d, name);
  }

  lemma MissingHalves(place: Place, t: Tree, temp: Bytes, p: Path) returns (d: Path, name: Bytes)
    requires Served(place, t) && LastSlash(temp) > 0
    requires Paths.Resolve(t, place.cwd, temp) == Missing(p)
    requires var e := Paths.Resolve(t, place.cwd, temp[..LastSlash(temp)]);
             e.Found? && e.at + [temp[LastSlash(temp) + 1..]] in t ==> !t[e.at + [temp[LastSlash(temp) + 1..]]].Link?
    ensures Paths.Resolve(t, place.cwd, temp[..LastSlash(temp)]).Found?
    ensures d == Paths.Resolve(t, place.cwd, temp[..LastSlash(temp)]).at && name == temp[LastSlash(temp) + 1..]
    ensures d in t && ValidName(name) && p == d + [name]
  {
    hide Split, WellFormed, LastSlash;
    var k := LastSlash(temp);
    ResolveHalves(t, place.cwd, temp);
    StartsSound(place, t, temp[..k]);
    d, name := Paths.Resolve(t, place.cwd, temp[..k]).at, temp[k + 1..];
    OneStep(t, d, name, Paths.Resolve(t, place.cwd, temp[..k]).links);
  }

  lemma ResolvedMissing(place: Place, t: Tree, temp: Bytes, d: Path, name: Bytes)
    requires Realpath(t, place.cwd, temp).None? && LastSlash(temp) > 0
    requires Realpath(t, place.cwd, temp[..LastSlash(temp)]) == Some(d) && name == temp[LastSlash(temp) + 1..]
    requires d != [] && |Render(d + [name])| < PATH_MAX
    ensures Resolved(place, t, temp) == Some(Render(d + [name]))
  {
    AbsoluteSnoc(d, name);
  }
}
