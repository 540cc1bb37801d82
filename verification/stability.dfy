/** Resolution depends only on directories and links, so creating entries and
    rewriting files leaves every other pathname's meaning alone. */
module Stability {
  import opened CBytes
  import opened Paths
  import opened Resolve

  predicate SameKind(a: Node, b: Node) {
    a == b || (a.File? && b.File?)
  }

  /** u has all of t's entries; their files may hold other bytes. */
  ghost predicate Extends(t: Tree, u: Tree) {
    forall p :: p in t ==> p in u && SameKind(t[p], u[p])
  }

  lemma {:induction false} WalkStable(t: Tree, u: Tree, at: Path, todo: seq<Bytes>, links: nat)
    requires Extends(t, u)
    ensures var r := Walk(t, at, todo, links);
            r.Found? || (r.Missing? && r.at !in u) ==> Walk(u, at, todo, links) == r
    decreases links, |todo|
  {
    if todo != [] && at in t && t[at].Dir? {
      assert u[at].Dir?;
      var name := todo[0];
      var next := at + [name];
      if name == [] || name == [DOT] {
        WalkStable(t, u, at, todo[1..], links);
      } else if name == DOTDOT {
        WalkStable(t, u, Up(at), todo[1..], links);
      } else if next in t {
        assert SameKind(t[next], u[next]);
        if t[next].Link? {
          var target := t[next].target;
          if links > 0 && target != [] {
            WalkStable(t, u, if target[0] == SLASH then [] else at, Split(target) + todo[1..], links - 1);
          }
        } else {
          WalkStable(t, u, next, todo[1..], links);
        }
      }
    }
  }

  lemma ResolveStable(t: Tree, u: Tree, cwd: Path, s: Bytes)
    requires Extends(t, u)
    ensures var r := Paths.Resolve(t, cwd, s);
            r.Found? || (r.Missing? && r.at !in u) ==> Paths.Resolve(u, cwd, s) == r
  {
    if s != [] {
      WalkStable(t, u, Start(cwd, s), Split(s), MAX_LINKS);
    }
  }

  lemma AddedNode(t: Tree, p: Path, node: Node)
    requires WellFormed(t) && p != [] && ValidName(Last(p)) && Up(p) in t && t[Up(p)].Dir?
    requires p in t ==> SameKind(t[p], node)
    ensures WellFormed(t[p := node]) && Extends(t, t[p := node])
  {
    var u := t[p := node];
    forall q | q in u && q != [] ensures ValidName(Last(q)) && Up(q) in u && u[Up(q)].Dir? {
      assert q in t || q == p;
    }
  }

  /** A place stays a place, with the same root, when the tree is extended. */
  lemma PlaceStable(place: Place, t: Tree, u: Tree)
    requires Served(place, t) && Extends(t, u) && WellFormed(u)
    ensures Served(place, u)
    ensures RootPath(place, t).Some? ==> RootPath(place, u) == RootPath(place, t)
  {
    ResolveStable(t, u, place.cwd, place.root);
  }

  /** The two ways in which a PUT's path can name its target. */
  lemma TargetLocated(place: Place, t: Tree, rel: Bytes, top: Path, p: Path)
    requires Served(place, t) && RootPath(place, t) == Some(top) && top != []
    requires Clean(place, t, rel) && Short(place, t, rel)
    requires PutTarget(place, t, rel) == Some(p)
    ensures top <= p && p != [] && |Render(p)| < STREAM_PATH_SIZE
    ensures ValidName(Last(p)) && Up(p) in t && t[Up(p)].Dir?
    ensures p in t ==> t[p].File? && Locate(place, t, rel).Found? && Locate(place, t, rel).at == p
    ensures p !in t ==> Locate(place, t, rel) == Missing(p)
  {
    hide Walk, Split, TempPath;
    PutTargetRefines(place, t, rel, top);
    StartsSound(place, t, TempPath(place.root, rel));
    assert p in t && p != [] ==> ValidName(Last(p)) && Up(p) in t && t[Up(p)].Dir?;
  }

  lemma MissingParts(place: Place, t: Tree, rel: Bytes, top: Path, p: Path) returns (a: Bytes, name: Bytes)
    requires Served(place, t) && RootPath(place, t) == Some(top) && top != []
    requires Clean(place, t, rel) && Locate(place, t, rel) == Missing(p)
    ensures LastSlash(TempPath(place.root, rel)) > 0
    ensures a == TempPath(place.root, rel)[..LastSlash(TempPath(place.root, rel))]
    ensures name == TempPath(place.root, rel)[LastSlash(TempPath(place.root, rel)) + 1..]
    ensures Paths.Resolve(t, place.cwd, a).Found? && p == Paths.Resolve(t, place.cwd, a).at + [name]
    ensures ValidName(name)
  {
    hide Walk, Split, TempPath, LastSlash;
    var temp := TempPath(place.root, rel);
    MissingHasTail(place, t, rel);
    HasSlash(place, t, rel, top);
    assert FallsBack(place, t, rel);
    var d;
    d, name := MissingHalves(place, t, temp, p);
    a := temp[..LastSlash(temp)];
  }

  /** Following fewer links, the walk stops early or ends in the same place; and
      in an extension of the tree it does as it does in the tree. */
  lemma {:induction false} FewerLinks(t: Tree, u: Tree, at: Path, todo: seq<Bytes>, few: nat, links: nat)
    requires Extends(t, u) && few <= links
    requires var r := Walk(t, at, todo, links); r.Found? || (r.Missing? && r.at !in u)
    ensures Walk(u, at, todo, few) == Walk(t, at, todo, few)
    ensures var r, s := Walk(t, at, todo, links), Walk(t, at, todo, few);
            s.Fail? || (s.at == r.at && (s.Found? <==> r.Found?))
    decreases links, |todo|
  {
    if todo != [] {
      assert u[at].Dir?;
      var name := todo[0];
      var next := at + [name];
      if name == [] || name == [DOT] {
        FewerLinks(t, u, at, todo[1..], few, links);
      } else if name == DOTDOT {
        FewerLinks(t, u, Up(at), todo[1..], few, links);
      } else if next in t {
        assert SameKind(t[next], u[next]);
        if t[next].Link? {
          var target := t[next].target;
          if few > 0 {
            FewerLinks(t, u, if target[0] == SLASH then [] else at, Split(target) + todo[1..], few - 1, links - 1);
          }
        } else {
          FewerLinks(t, u, next, todo[1..], few, links);
        }
      }
    }
  }

  lemma {:induction false} LinksLeft(t: Tree, at: Path, todo: seq<Bytes>, links: nat)
    ensures var r := Walk(t, at, todo, links);
            r.Found? ==> r.links <= links
    decreases links, |todo|
  {
    if todo != [] && at in t && t[at].Dir? {
      var name := todo[0];
      var next := at + [name];
      if name == [] || name == [DOT] {
        LinksLeft(t, at, todo[1..], links);
      } else if name == DOTDOT {
        LinksLeft(t, Up(at), todo[1..], links);
      } else if next in t {
        if t[next].Link? {
          var target := t[next].target;
          if links > 0 && target != [] {
            LinksLeft(t, if target[0] == SLASH then [] else at, Split(target) + todo[1..], links - 1);
          }
        } else {
          LinksLeft(t, next, todo[1..], links);
        }
      }
    }
  }

  /** What was missing is found once it is there. */
  lemma {:induction false} AddedIsFound(t: Tree, p: Path, node: Node, at: Path, todo: seq<Bytes>, links: nat)
    requires p !in t && !node.Link? && Walk(t, at, todo, links) == Missing(p)
    ensures Walk(t[p := node], at, todo, links).Found? && Walk(t[p := node], at, todo, links).at == p
    decreases links, |todo|
  {
    var name := todo[0];
    var next := at + [name];
    assert t[p := node][at] == t[at];
    if name == [] || name == [DOT] {
      AddedIsFound(t, p, node, at, todo[1..], links);
    } else if name == DOTDOT {
      AddedIsFound(t, p, node, Up(at), todo[1..], links);
    } else if next in t {
      assert t[p := node][next] == t[next];
      if t[next].Link? {
        var target := t[next].target;
        AddedIsFound(t, p, node, if target[0] == SLASH then [] else at, Split(target) + todo[1..], links - 1);
      } else {
        AddedIsFound(t, p, node, next, todo[1..], links);
      }
    } else {
      assert todo[1..] == [];
    }
  }

  /** What a PUT opens is a file, or an absent entry of a directory. */
  lemma PutTargetSound(place: Place, t: Tree, rel: Bytes, p: Path)
    requires WellFormed(t) && PutTarget(place, t, rel) == Some(p)
    ensures p != [] && ValidName(Last(p)) && Up(p) in t && t[Up(p)].Dir?
    ensures p in t ==> t[p].File?
    ensures FullPath(place, t, rel).Some?
  {
    hide Walk, Split, FullPath;
    StartsSound(place, t, FullPathIn(place, t, rel, STREAM_PATH_SIZE).value);
  }

  lemma TargetResolves(place: Place, t: Tree, rel: Bytes, p: Path)
    requires WellFormed(t) && PutTarget(place, t, rel) == Some(p) && FullPath(place, t, rel).Some?
    ensures var w := Paths.Resolve(t, place.cwd, FullPathIn(place, t, rel, STREAM_PATH_SIZE).value);
            (w == Missing(p) && p !in t) || (w.Found? && w.at == p && p in t && t[p].File?)
  {
    hide Walk, Split, FullPath;
    StartsSound(place, t, FullPathIn(place, t, rel, STREAM_PATH_SIZE).value);
  }

  lemma SameTarget(place: Place, t: Tree, u: Tree, rel: Bytes, p: Path)
    requires WellFormed(t) && PutTarget(place, t, rel) == Some(p) && FullPath(place, t, rel).Some?
    requires Extends(t, u) && (p in t || p !in u) && FullPath(place, u, rel) == FullPath(place, t, rel)
    ensures PutTarget(place, u, rel) == Some(p)
  {
    hide Walk, Split, FullPath;
    TargetResolves(place, t, rel, p);
    ResolveStable(t, u, place.cwd, FullPathIn(place, t, rel, STREAM_PATH_SIZE).value);
    assert p in t ==> SameKind(t[p], u[p]);
  }

  // Answers that other entries do not change

  /** u has no links but those of t. */
  ghost predicate NoNewLinks(t: Tree, u: Tree) {
    forall p :: p in u && u[p].Link? ==> p in t
  }

  /** The answer is whole in the 1024-byte buffer, or ends in no link. */
  ghost predicate Steady(place: Place, t: Tree, rel: Bytes) {
    FullPath(place, t, rel).Some? && (|FullPath(place, t, rel).value| < STREAM_PATH_SIZE || Clean(place, t, rel))
  }

  lemma FallbackRoot(place: Place, t: Tree, rel: Bytes, top: Path, d: Path, name: Bytes)
    requires Served(place, t) && RootPath(place, t) == Some(top) && top != [] && FullPath(place, t, rel).Some?
    requires Resolved(place, t, TempPath(place.root, rel)) == Some(Cut(Render(d) + [SLASH] + name, PATH_MAX - 1))
    ensures d != []
  {
    hide Walk, Split, WellFormed, TempPath, Resolved;
    RootIsNode(place, t);
    if d == [] {
      var r := Cut(Render(d) + [SLASH] + name, PATH_MAX - 1);
      assert r == [SLASH] + [SLASH] + r[2..];
      DoubleSlashTest(t, r[2..], top);
    }
  }

  /** What the two branches make of a name that is no link is the same. */
  lemma NowFound(t: Tree, u: Tree, d: Path, name: Bytes, l: nat, q: Path)
    requires WellFormed(u) && Extends(t, u) && d in t && d != [] && !t[d].Link? && SLASH !in name
    requires d + [name] in u ==> !u[d + [name]].Link?
    requires Walk(u, d, [name], l).Found? && Walk(u, d, [name], l).at == q && |Render(q)| < PATH_MAX
    requires Walk(t, d, [name], l).Found? ==> |Render(Walk(t, d, [name], l).at)| >= PATH_MAX
    ensures Cut(Render(d) + [SLASH] + name, PATH_MAX - 1) == Render(q)
  {
    hide Walk, Split, WellFormed, Absolute;
    assert SameKind(t[d], u[d]);
    assert d + [name] in t ==> SameKind(t[d + [name]], u[d + [name]]);
    OneStep(t, d, name, l);
    OneStep(u, d, name, l);
    assert q == d + [name];
    AbsoluteSnoc(d, name);
  }

  /** An answer that ends in no link is not changed by other entries. */
  lemma CleanAnswerStable(place: Place, t: Tree, u: Tree, rel: Bytes, top: Path)
    requires Served(place, t) && RootPath(place, t) == Some(top) && top != []
    requires FullPath(place, t, rel).Some? && Clean(place, t, rel)
    requires Extends(t, u) && NoNewLinks(t, u) && WellFormed(u)
    ensures FullPath(place, u, rel) == FullPath(place, t, rel)
  {
    hide Walk, Split, LastSlash, TempPath, WellFormed, Paths.Resolve, Render, BelowRoot, RootPath;
    PlaceStable(place, t, u);
    var temp := TempPath(place.root, rel);
    if FallsBack(place, t, rel) {
      var d, name := ResolvedShape(place, t, temp);
      var a := temp[..LastSlash(temp)];
      FallbackRoot(place, t, rel, top, d, name);
      RealpathResolves(t, place.cwd, a);
      ResolveStable(t, u, place.cwd, a);
      ResolveHalves(t, place.cwd, temp);
      ResolveHalves(u, place.cwd, temp);
      if FallsBack(place, u, rel) {
        SameFallback(place, t, u, rel);
      } else {
        var q := Realpath(u, place.cwd, temp).value;
        assert d + [name] in u ==> !u[d + [name]].Link?;
        NowFound(t, u, d, name, Paths.Resolve(t, place.cwd, a).links, q);
        ResolvedFound(place, u, temp, q);
      }
    } else {
      ResolveStable(t, u, place.cwd, temp);
      var q := Realpath(t, place.cwd, temp).value;
      ResolvedFound(place, t, temp, q);
      ResolvedFound(place, u, temp, q);
    }
  }

  /** The directory and the name that the fallback branch puts together, with how
      they resolve before and after. */
  lemma FallbackParts(place: Place, t: Tree, u: Tree, rel: Bytes, top: Path) returns (d: Path, name: Bytes, l: nat)
    requires Served(place, t) && RootPath(place, t) == Some(top) && top != [] && FallsBack(place, t, rel)
    requires FullPath(place, t, rel).Some? && |FullPath(place, t, rel).value| < STREAM_PATH_SIZE
    requires Extends(t, u) && WellFormed(u)
    ensures l <= MAX_LINKS && FullPath(place, t, rel) == Some(Render(d + [name]))
    ensures Locate(place, t, rel) == Walk(t, d, [name], l) && Locate(place, u, rel) == Walk(u, d, [name], l)
    ensures Paths.Resolve(t, place.cwd, Render(d + [name])) == Walk(t, d, [name], MAX_LINKS)
    ensures Paths.Resolve(u, place.cwd, Render(d + [name])) == Walk(u, d, [name], MAX_LINKS)
    ensures FallsBack(place, u, rel) ==> FullPath(place, u, rel) == FullPath(place, t, rel)
  {
    hide Walk, Split, TempPath, LastSlash, WellFormed, Paths.Resolve, Realpath, FullPath, FallsBack, Render;
    var temp := TempPath(place.root, rel);
    d, name := FallbackShape(place, t, rel, top);
    var a := temp[..LastSlash(temp)];
    RealpathResolves(t, place.cwd, a);
    l := Paths.Resolve(t, place.cwd, a).links;
    ResolveStable(t, u, place.cwd, a);
    ResolveHalves(t, place.cwd, temp);
    ResolveHalves(u, place.cwd, temp);
    assert SameKind(t[d], u[d]);
    ResolveBelow(t, place.cwd, d, name);
    ResolveBelow(u, place.cwd, d, name);
    PlaceStable(place, t, u);
    if FallsBack(place, u, rel) {
      SameFallback(place, t, u, rel);
    }
  }

  lemma RealpathResolves(t: Tree, cwd: Path, s: Bytes)
    requires Realpath(t, cwd, s).Some?
    ensures var r := Paths.Resolve(t, cwd, s);
            r.Found? && r.at == Realpath(t, cwd, s).value && r.links <= MAX_LINKS
  {
    hide Walk, Split;
    LinksLeft(t, Start(cwd, s), Split(s), MAX_LINKS);
  }

  /** When both trees fall back and resolve root and parent alike, the answer is
      the same. */
  lemma SameFallback(place: Place, t: Tree, u: Tree, rel: Bytes)
    requires FallsBack(place, t, rel) && FallsBack(place, u, rel) && RootPath(place, t) == RootPath(place, u)
    requires var temp := TempPath(place.root, rel);
             var k := LastSlash(temp);
             k > 0 && Paths.Resolve(t, place.cwd, temp[..k]) == Paths.Resolve(u, place.cwd, temp[..k])
    ensures FullPath(place, t, rel) == FullPath(place, u, rel)
  {
    hide TempPath, LastSlash, Paths.Resolve;
    var temp := TempPath(place.root, rel);
    var a := temp[..LastSlash(temp)];
    assert Realpath(t, place.cwd, a) == Realpath(u, place.cwd, a);
    assert Resolved(place, t, temp) == Resolved(place, u, temp);
  }

  /** A PUT's target is not moved by other entries appearing or files changing. */
  lemma PutTargetStable(place: Place, t: Tree, u: Tree, rel: Bytes, top: Path, p: Path)
    requires Served(place, t) && RootPath(place, t) == Some(top) && top != []
    requires PutTarget(place, t, rel) == Some(p) && FullPath(place, t, rel).Some?
    requires |FullPath(place, t, rel).value| < STREAM_PATH_SIZE || (Clean(place, t, rel) && NoNewLinks(t, u))
    requires Extends(t, u) && WellFormed(u) && (p in t || p !in u)
    ensures PutTarget(place, u, rel) == Some(p)
  {
    hide Walk, Split, TempPath, LastSlash, Resolved, FullPath, PutTarget, WellFormed, Absolute, NoNewLinks, Clean;
    if |FullPath(place, t, rel).value| < STREAM_PATH_SIZE {
      ShortAnswerStable(place, t, u, rel, top, p);
    } else {
      CleanAnswerStable(place, t, u, rel, top);
    }
    SameTarget(place, t, u, rel, p);
  }

  /** An answer that is whole in the buffer is not changed by other entries. */
  lemma ShortAnswerStable(place: Place, t: Tree, u: Tree, rel: Bytes, top: Path, p: Path)
    requires Served(place, t) && RootPath(place, t) == Some(top) && top != []
    requires PutTarget(place, t, rel) == Some(p) && FullPath(place, t, rel).Some?
    requires |FullPath(place, t, rel).value| < STREAM_PATH_SIZE
    requires Extends(t, u) && WellFormed(u) && (p in t || p !in u)
    ensures FullPath(place, u, rel) == FullPath(place, t, rel)
  {
    hide Walk, Split, TempPath, LastSlash, Resolved, FullPath, PutTarget, WellFormed, Absolute;
    PlaceStable(place, t, u);
    TargetResolves(place, t, rel, p);
    if FallsBack(place, t, rel) {
      var d, name, l := FallbackParts(place, t, u, rel, top);
      FewerLinks(t, u, d, [name], l, MAX_LINKS);
    } else {
      ResolveStable(t, u, place.cwd, TempPath(place.root, rel));
      var q := ExistingShape(place, t, rel, top);
      var r := ExistingShape(place, u, rel, top);
    }
  }

  /** Once a PUT has written its file below the root, get_full_path gives a
      pathname of it, through one branch or the other. */
  lemma PutIsFound(place: Place, t: Tree, rel: Bytes, top: Path, p: Path, content: Bytes)
    requires Served(place, t) && RootPath(place, t) == Some(top) && top != []
    requires PutTarget(place, t, rel) == Some(p) && top <= p && |Render(p)| < STREAM_PATH_SIZE
    requires FullPath(place, t, rel).Some? && |FullPath(place, t, rel).value| < STREAM_PATH_SIZE
    ensures var s := FullPath(place, t[p := File(content)], rel);
            s.Some? && |s.value| < STREAM_PATH_SIZE && Stat(t[p := File(content)], place.cwd, s.value) == Some(p)
  {
    hide Walk, Split, TempPath, LastSlash, Resolved, WellFormed, Absolute, FullPath, PutTarget;
    var u := t[p := File(content)];
    PutTargetSound(place, t, rel, p);
    TargetResolves(place, t, rel, p);
    AddedNode(t, p, File(content));
    PlaceStable(place, t, u);
    var s := FullPath(place, t, rel).value;
    if FallsBack(place, t, rel) {
      var d, name, l := FallbackParts(place, t, u, rel, top);
      FoundAfterwards(t, p, content, d, [name], l);
      if Locate(place, u, rel).Found? {
        var q := ExistingShape(place, u, rel, top);
        ResolveNode(u, place.cwd, p);
      }
    } else {
      ResolveStable(t, u, place.cwd, TempPath(place.root, rel));
      ResolveStable(t, u, place.cwd, s);
      var q := ExistingShape(place, t, rel, top);
      var r := ExistingShape(place, u, rel, top);
      ResolveNode(t, place.cwd, q);
    }
  }

  lemma FoundAfterwards(t: Tree, p: Path, content: Bytes, d: Path, todo: seq<Bytes>, few: nat)
    requires few <= MAX_LINKS && Extends(t, t[p := File(content)])
    requires var w := Walk(t, d, todo, MAX_LINKS);
             (w == Missing(p) && p !in t) || (w.Found? && w.at == p)
    ensures var u := t[p := File(content)];
            && Walk(u, d, todo, MAX_LINKS).Found? && Walk(u, d, todo, MAX_LINKS).at == p
            && (Walk(u, d, todo, few).Fail? || (Walk(u, d, todo, few).Found? && Walk(u, d, todo, few).at == p))
  {
    hide Walk;
    var u := t[p := File(content)];
    if Walk(t, d, todo, MAX_LINKS).Found? {
      WalkStable(t, u, d, todo, MAX_LINKS);
    } else {
      AddedIsFound(t, p, File(content), d, todo, MAX_LINKS);
    }
    FewerLinks(u, u, d, todo, few, MAX_LINKS);
  }

  lemma CreatedLocates(place: Place, t: Tree, rel: Bytes, top: Path, p: Path, node: Node)
    requires Served(place, t) && RootPath(place, t) == Some(top) && top != []
    requires Clean(place, t, rel) && !node.Link? && Extends(t, t[p := node])
    requires if p in t then Locate(place, t, rel).Found? && Locate(place, t, rel).at == p
             else Locate(place, t, rel) == Missing(p)
    requires p != [] && Up(p) in t && t[Up(p)].Dir?
    ensures Locate(place, t[p := node], rel).Found? && Locate(place, t[p := node], rel).at == p
  {
    hide Walk, Split, TempPath, LastSlash, WellFormed, Paths.Resolve, RootPath, Realpath;
    var temp := TempPath(place.root, rel);
    var u := t[p := node];
    ResolveStable(t, u, place.cwd, temp);
    if p !in t {
      var a, name := MissingParts(place, t, rel, top, p);
      ResolveStable(t, u, place.cwd, a);
      ResolveHalves(u, place.cwd, temp);
      var d, l := Paths.Resolve(u, place.cwd, a).at, Paths.Resolve(u, place.cwd, a).links;
      assert Up(p) == d;
      OneStep(u, d, name, l);
    }
  }

  /** Once the node is there, get_full_path gives its canonical pathname. */
  lemma CreatedIsFound(place: Place, t: Tree, rel: Bytes, top: Path, p: Path, node: Node)
    requires Served(place, t) && RootPath(place, t) == Some(top) && top != []
    requires Clean(place, t, rel) && !node.Link? && top <= p && |Render(p)| < PATH_MAX
    requires if p in t then Locate(place, t, rel).Found? && Locate(place, t, rel).at == p && SameKind(t[p], node)
             else Locate(place, t, rel) == Missing(p)
    requires p != [] && ValidName(Last(p)) && Up(p) in t && t[Up(p)].Dir?
    ensures Served(place, t[p := node]) && RootPath(place, t[p := node]) == Some(top)
    ensures FullPath(place, t[p := node], rel) == Some(Render(p))
    ensures Stat(t[p := node], place.cwd, Render(p)) == Some(p)
    ensures Entry(t[p := node], place.cwd, Render(p)) == Some(p)
  {
    hide Walk, Split, TempPath, LastSlash, WellFormed, Render, Clean, RootPath;
    var u := t[p := node];
    AddedNode(t, p, node);
    PlaceStable(place, t, u);
    CreatedLocates(place, t, rel, top, p, node);
    var q := ExistingShape(place, u, rel, top);
    ResolveNode(u, place.cwd, p);
  }
}
