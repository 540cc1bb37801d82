/** When get_full_path's answer depends on what is outside the root: over trees
    without symbolic links, exactly when the path makes a detour. */
module Detours {
  import opened CBytes
  import opened Paths
  import opened Resolve
  import opened Stability
  import opened Answers
  import opened Requests
  import opened Containment

  // The two places where get_full_path resolves

  function Base(root: Bytes): Bytes
    requires root != []
  {
    if root[|root| - 1] != SLASH then root + [SLASH] else root
  }

  lemma {:induction false} TailOf(rel: Bytes)
    ensures var x := SkipSlashes(rel);
            |x| <= |rel| && (x != [] ==> x[0] != SLASH)
  {
    if rel != [] && rel[0] == SLASH {
      TailOf(rel[1..]);
    }
  }

  lemma TempParts(root: Bytes, rel: Bytes)
    requires 0 < |root| < 1024 && |rel| < MAX_PATH_LENGTH
    ensures var x := SkipSlashes(rel);
            TempPath(root, rel) == if x == [] then root else Base(root) + x
  {
    hide SkipSlashes, Split, Cut;
    TailOf(rel);
    CutNothing(root, MAX_PATH_SIZE - 1);
    CutNothing(Base(root), MAX_PATH_SIZE - 1);
    CutNothing(Base(root) + SkipSlashes(rel), MAX_PATH_SIZE - 1);
  }

  lemma CutNothing(s: Bytes, n: nat)
    requires |s| <= n
    ensures Cut(s, n) == s
  {
  }

  lemma UnderRoot(t: Tree, cwd: Path, root: Bytes, x: Bytes, top: Path) returns (l: nat)
    requires WellFormed(t) && Realpath(t, cwd, root) == Some(top) && top != [] && root != []
    ensures Paths.Resolve(t, cwd, Base(root) + x) == Walk(t, top, Split(x), l) && l <= MAX_LINKS
  {
    hide Walk, WellFormed, Split;
    var base := Base(root);
    var y := base[..|base| - 1];
    assert base == y + [SLASH] && base + x == y + [SLASH] + x;
    RootWithoutSlash(t, cwd, root, y, top);
    l := Paths.Resolve(t, cwd, y).links;
    LinksLeft(t, Start(cwd, y), Split(y), MAX_LINKS);
    SplitAtSlash(y, x);
    WalkAppend(t, Start(cwd, y), Split(y), Split(x), MAX_LINKS);
  }

  lemma LastSlashIs(s: Bytes, k: int)
    requires -1 <= k < |s| && (k >= 0 ==> s[k] == SLASH)
    requires forall i :: k < i < |s| ==> s[i] != SLASH
    ensures LastSlash(s) == k
  {
    hide LastSlash;
    var l := LastSlash(s);
    if l >= 0 {
      assert s[l] == SLASH;
    }
  }

  // The two halves of a pathname at its last slash

  function Front(s: Bytes): Bytes
    requires LastSlash(s) >= 0
  {
    s[..LastSlash(s)]
  }

  function Tail(s: Bytes): Bytes {
    s[LastSlash(s) + 1..]
  }

  lemma Halves(s: Bytes)
    ensures SLASH !in Tail(s)
    ensures if LastSlash(s) >= 0 then s == Front(s) + [SLASH] + Tail(s) else Tail(s) == s
  {
    hide LastSlash;
  }

  lemma HalvesAre(s: Bytes, a: Bytes, b: Bytes)
    requires s == a + [SLASH] + b && SLASH !in b
    ensures LastSlash(s) == |a| && Front(s) == a && Tail(s) == b
  {
    hide LastSlash;
    assert s[|a|] == SLASH;
    assert forall i :: |a| < i < |s| ==> s[i] == b[i - |a| - 1];
    LastSlashIs(s, |a|);
  }

  /** The halves of what get_full_path composes; the root is named with and
      without its last slash. */
  lemma HalvesBelow(root: Bytes, x: Bytes) returns (y: Bytes)
    requires root != []
    ensures Base(root) == y + [SLASH] && (root == y || root == y + [SLASH])
    ensures var temp := Base(root) + x;
            && LastSlash(temp) >= 0 && Tail(temp) == Tail(x)
            && Front(temp) == if LastSlash(x) >= 0 then Base(root) + Front(x) else y
  {
    hide LastSlash, Base, Front, Tail;
    y := BaseParts(root);
    Halves(x);
    if LastSlash(x) >= 0 {
      Regroup(Base(root), Front(x), Tail(x));
      HalvesAre(Base(root) + x, Base(root) + Front(x), Tail(x));
    } else {
      HalvesAre(Base(root) + x, y, x);
    }
  }

  lemma BaseParts(root: Bytes) returns (y: Bytes)
    requires root != []
    ensures Base(root) == y + [SLASH] && (root == y || root == y + [SLASH])
  {
    var base := Base(root);
    y := base[..|base| - 1];
    assert base == y + [SLASH];
  }

  lemma Regroup(a: Bytes, b: Bytes, c: Bytes)
    ensures a + (b + [SLASH] + c) == (a + b) + [SLASH] + c
  {
  }

  /** The last component, and the components before it. */
  lemma HalvesSplit(x: Bytes)
    ensures var todo := Split(x);
            && todo[|todo| - 1] == Tail(x)
            && AllButLast(todo) == if LastSlash(x) >= 0 then Split(Front(x)) else []
  {
    hide Split, LastSlash, Front, Tail;
    Halves(x);
    SplitOne(Tail(x));
    if LastSlash(x) >= 0 {
      SplitAtSlash(Front(x), Tail(x));
    }
  }

  lemma RootBySlash(place: Place, t: Tree, y: Bytes, top: Path)
    requires Served(place, t) && RootPath(place, t) == Some(top) && top != []
    requires place.root == y || place.root == y + [SLASH]
    ensures Realpath(t, place.cwd, y) == Some(top)
  {
    hide Walk, Split, WellFormed;
    RootWithoutSlash(t, place.cwd, place.root, y, top);
  }

  // The answer from where the walks end

  /** The two trees are the same at and below top. */
  ghost predicate Agree(t: Tree, u: Tree, top: Path) {
    forall p :: top <= p ==> (p in t <==> p in u) && (p in t ==> t[p] == u[p])
  }

  predicate SameEnd(a: Walked, b: Walked) {
    match a
    case Found(p, _) => b.Found? && b.at == p
    case Missing(p) => b == Missing(p)
    case Fail => b.Fail?
  }

  /** The answer, given where the whole path and its front half lead. */
  function AnswerFrom(top: Path, whole: Walked, front: Walked, name: Bytes): Option<Bytes> {
    var r :=
      if whole.Found? && |Render(whole.at)| < PATH_MAX then Some(Render(whole.at))
      else if front.Found? && |Render(front.at)| < PATH_MAX then
        Some(Cut(Render(front.at) + [SLASH] + name, PATH_MAX - 1))
      else None;
    match r
    case None => None
    case Some(s) => if BelowRoot(s, Render(top)) then Some(s) else None
  }

  /** Without links it does not matter how many may be followed. */
  lemma {:induction false} LinklessWalk(t: Tree, at: Path, todo: seq<Bytes>, l: nat, m: nat)
    requires NoLinks(t)
    ensures SameEnd(Walk(t, at, todo, l), Walk(t, at, todo, m))
    decreases |todo|
  {
    if todo != [] && at in t && t[at].Dir? {
      var name := todo[0];
      var next := at + [name];
      if name == [] || name == [DOT] {
        LinklessWalk(t, at, todo[1..], l, m);
      } else if name == DOTDOT {
        LinklessWalk(t, Up(at), todo[1..], l, m);
      } else if next in t {
        LinklessWalk(t, next, todo[1..], l, m);
      }
    }
  }

  function WalkBelow(t: Tree, top: Path, todo: seq<Bytes>): Walked {
    Walk(t, top, todo, MAX_LINKS)
  }

  lemma RealpathBelow(place: Place, t: Tree, top: Path, x: Bytes)
    requires Served(place, t) && RootPath(place, t) == Some(top) && top != [] && place.root != [] && NoLinks(t)
    ensures var w := WalkBelow(t, top, Split(x));
            Realpath(t, place.cwd, Base(place.root) + x) ==
            if w.Found? && |Render(w.at)| < PATH_MAX then Some(w.at) else None
  {
    hide Walk, Split, WellFormed, NoLinks, Base, Render;
    var l := UnderRoot(t, place.cwd, place.root, x, top);
    LinklessWalk(t, top, Split(x), l, MAX_LINKS);
  }

  lemma ParentBelow(place: Place, t: Tree, top: Path, x: Bytes)
    requires Served(place, t) && RootPath(place, t) == Some(top) && top != [] && place.root != [] && NoLinks(t)
    ensures var temp := Base(place.root) + x;
            var w := WalkBelow(t, top, AllButLast(Split(x)));
            && LastSlash(temp) >= 0
            && Realpath(t, place.cwd, Front(temp)) ==
               if w.Found? && |Render(w.at)| < PATH_MAX then Some(w.at) else None
  {
    hide Walk, Split, WellFormed, NoLinks, Base, Render, LastSlash, Front, Tail, Realpath, WalkBelow, AllButLast;
    var y := HalvesBelow(place.root, x);
    HalvesSplit(x);
    if LastSlash(x) >= 0 {
      RealpathBelow(place, t, top, Front(x));
    } else {
      RootBySlash(place, t, y, top);
      RootIsShort(place, t, top);
      NothingWalked(t, top);
    }
  }

  lemma NothingWalked(t: Tree, top: Path)
    ensures WalkBelow(t, top, []) == Found(top, MAX_LINKS)
  {
  }

  lemma RootIsShort(place: Place, t: Tree, top: Path)
    requires RootPath(place, t) == Some(top)
    ensures |Render(top)| < PATH_MAX
  {
  }

  lemma ResolvedFrom(place: Place, t: Tree, temp: Bytes)
    requires LastSlash(temp) >= 0
    ensures Resolved(place, t, temp) ==
            match Realpath(t, place.cwd, temp)
            case Some(p) => Some(Render(p))
            case None =>
              match Realpath(t, place.cwd, Front(temp))
              case None => None
              case Some(d) => Some(Cut(Render(d) + [SLASH] + Tail(temp), PATH_MAX - 1))
  {
    hide Realpath, Render, LastSlash;
    var d := Realpath(t, place.cwd, Front(temp));
    if d.Some? {
      CutTwice(Render(d.value) + [SLASH], Tail(temp), PATH_MAX - 1);
    }
  }

  predicate Gives(r: Option<Path>, w: Walked) {
    r == if w.Found? && |Render(w.at)| < PATH_MAX then Some(w.at) else None
  }

  lemma AnswerOf(place: Place, t: Tree, top: Path, rel: Bytes, whole: Walked, front: Walked)
    requires RootPath(place, t) == Some(top) && LastSlash(TempPath(place.root, rel)) >= 0
    requires var temp := TempPath(place.root, rel);
             Gives(Realpath(t, place.cwd, temp), whole) && Gives(Realpath(t, place.cwd, Front(temp)), front)
    ensures FullPath(place, t, rel) == AnswerFrom(top, whole, front, Tail(TempPath(place.root, rel)))
  {
    hide Realpath, Render, LastSlash, TempPath, Front, Tail, BelowRoot, Resolved, RootPath;
    ResolvedFrom(place, t, TempPath(place.root, rel));
  }

  lemma RootItself(place: Place, t: Tree, top: Path, rel: Bytes)
    requires RootPath(place, t) == Some(top) && TempPath(place.root, rel) == place.root
    ensures FullPath(place, t, rel) == Some(Render(top))
  {
    hide TempPath, Render;
    assert Resolved(place, t, place.root) == Some(Render(top));
  }

  /** get_full_path over a tree without links. */
  lemma FullPathFrom(place: Place, t: Tree, top: Path, rel: Bytes)
    requires Served(place, t) && RootPath(place, t) == Some(top) && top != [] && NoLinks(t)
    requires |rel| < MAX_PATH_LENGTH
    ensures var x := SkipSlashes(rel);
            var todo := Split(x);
            FullPath(place, t, rel) ==
            if x == [] then Some(Render(top))
            else AnswerFrom(top, WalkBelow(t, top, todo), WalkBelow(t, top, AllButLast(todo)), todo[|todo| - 1])
  {
    hide Walk, Split, WellFormed, NoLinks, LastSlash, TempPath, Realpath, Base, SkipSlashes, Render, WalkBelow,
      AnswerFrom, Front, Tail, FullPath, RootPath;
    RootIsLonger(place, t, top);
    TempParts(place.root, rel);
    var x := SkipSlashes(rel);
    if x == [] {
      RootItself(place, t, top, rel);
    } else {
      var todo := Split(x);
      RealpathBelow(place, t, top, x);
      ParentBelow(place, t, top, x);
      var y := HalvesBelow(place.root, x);
      HalvesSplit(x);
      AnswerOf(place, t, top, rel, WalkBelow(t, top, todo), WalkBelow(t, top, AllButLast(todo)));
    }
  }

  lemma SameAnswer(top: Path, w: Walked, v: Walked, f: Walked, g: Walked, name: Bytes)
    requires SameEnd(w, v) && SameEnd(f, g)
    ensures AnswerFrom(top, w, f, name) == AnswerFrom(top, v, g, name)
  {
    hide Render;
  }

  // Where a path leads by its names alone

  function StepTo(at: Path, name: Bytes): Path {
    if name == [] || name == [DOT] then at else if name == DOTDOT then Up(at) else at + [name]
  }

  function End(at: Path, todo: seq<Bytes>): Path
    decreases |todo|
  {
    if todo == [] then at else End(StepTo(at, todo[0]), todo[1..])
  }

  /** The positions on the way, from the first to the end. */
  function Trail(at: Path, todo: seq<Bytes>): (r: seq<Path>)
    ensures |r| == |todo| + 1
    decreases |todo|
  {
    [at] + if todo == [] then [] else Trail(StepTo(at, todo[0]), todo[1..])
  }

  /** The ancestors of the root, and what is at or below it. */
  predicate OnChain(top: Path, p: Path) {
    p <= top || top <= p
  }

  /** Every position is on the chain. */
  predicate Level(top: Path, at: Path, todo: seq<Bytes>)
    decreases |todo|
  {
    OnChain(top, at) && (todo == [] || Level(top, StepTo(at, todo[0]), todo[1..]))
  }

  predicate IsName(name: Bytes) {
    name == [] || name == [DOT] || name == DOTDOT || ValidName(name)
  }

  predicate Nameable(todo: seq<Bytes>) {
    forall i :: 0 <= i < |todo| ==> IsName(todo[i])
  }

  /** The path leaves the chain of the root and comes back to the root or below,
      by names that a file system can have. */
  predicate Detour(top: Path, rel: Bytes) {
    var todo := Split(SkipSlashes(rel));
    Nameable(AllButLast(todo)) && !Level(top, top, todo) && top <= End(top, todo)
  }

  lemma {:induction false} LevelWalks(t: Tree, u: Tree, top: Path, at: Path, todo: seq<Bytes>, l: nat, m: nat)
    requires WellFormed(t) && WellFormed(u) && NoLinks(t) && NoLinks(u) && Agree(t, u, top) && top in t
    requires Level(top, at, todo)
    ensures SameEnd(Walk(t, at, todo, l), Walk(u, at, todo, m))
    decreases |todo|
  {
    hide WellFormed;
    if todo != [] {
      ChainAgrees(t, u, top, at);
      if at in t && t[at].Dir? {
        var name := todo[0];
        var next := at + [name];
        if name == [] || name == [DOT] {
          LevelWalks(t, u, top, at, todo[1..], l, m);
        } else if name == DOTDOT {
          LevelWalks(t, u, top, Up(at), todo[1..], l, m);
        } else {
          ChainAgrees(t, u, top, next);
          LevelWalks(t, u, top, next, todo[1..], l, m);
        }
      }
    }
  }

  lemma ChainAgrees(t: Tree, u: Tree, top: Path, p: Path)
    requires WellFormed(t) && WellFormed(u) && Agree(t, u, top) && top in t && OnChain(top, p)
    ensures (p in t <==> p in u) && (p in t ==> t[p].Dir? == u[p].Dir?)
  {
    hide WellFormed;
    assert top in u;
    if p <= top {
      AncestorIn(t, top, p);
      AncestorIn(u, top, p);
    }
  }

  lemma {:induction false} LevelFront(top: Path, at: Path, todo: seq<Bytes>)
    requires todo != [] && Level(top, at, todo)
    ensures Level(top, at, AllButLast(todo))
    decreases |todo|
  {
    if |todo| > 1 {
      assert AllButLast(todo)[1..] == AllButLast(todo[1..]);
      LevelFront(top, StepTo(at, todo[0]), todo[1..]);
    }
  }

  lemma {:induction false} EndAtLast(at: Path, todo: seq<Bytes>)
    requires todo != []
    ensures End(at, todo) == StepTo(End(at, AllButLast(todo)), todo[|todo| - 1])
    decreases |todo|
  {
    if |todo| > 1 {
      assert AllButLast(todo)[1..] == AllButLast(todo[1..]);
      EndAtLast(StepTo(at, todo[0]), todo[1..]);
    } else {
      assert AllButLast(todo) == [] && todo[1..] == [];
    }
  }

  /** A walk that finds something has found every position on its way. */
  lemma {:induction false} FoundOnTrail(t: Tree, at: Path, todo: seq<Bytes>, l: nat)
    requires WellFormed(t) && NoLinks(t) && at in t && Walk(t, at, todo, l).Found?
    ensures Walk(t, at, todo, l).at == End(at, todo) && Nameable(todo)
    ensures forall i :: 0 <= i <= |todo| ==> Trail(at, todo)[i] in t
    decreases |todo|
  {
    hide WellFormed, ValidName;
    if todo != [] {
      var name := todo[0];
      var next := StepTo(at, name);
      if name == DOTDOT {
        UpIsDirectory(t, at);
      } else if name != [] && name != [DOT] {
        EntryOfDirectory(t, at, name);
      }
      FoundOnTrail(t, next, todo[1..], l);
      assert Trail(at, todo) == [at] + Trail(next, todo[1..]);
      assert forall i :: 1 <= i < |todo| ==> todo[i] == todo[1..][i - 1];
    }
  }

  /** A walk whose positions are all directories finds its end. */
  lemma {:induction false} WalkThrough(t: Tree, at: Path, todo: seq<Bytes>, l: nat)
    requires forall i :: 0 <= i <= |todo| ==> Trail(at, todo)[i] in t && t[Trail(at, todo)[i]].Dir?
    ensures Walk(t, at, todo, l) == Found(End(at, todo), l)
    decreases |todo|
  {
    var trail := Trail(at, todo);
    assert trail[0] == at;
    if todo != [] {
      var next := StepTo(at, todo[0]);
      assert trail == [at] + Trail(next, todo[1..]);
      assert forall i :: 0 <= i <= |todo| - 1 ==> Trail(next, todo[1..])[i] == trail[i + 1];
      assert Trail(next, todo[1..])[0] == next;
      WalkThrough(t, next, todo[1..], l);
    }
  }

  // How long an answer can be

  /** The bytes of the components, each with a slash. */
  function Length(todo: seq<Bytes>): nat {
    if todo == [] then 0 else 1 + |todo[0]| + Length(todo[1..])
  }

  lemma {:induction false} SplitLength(x: Bytes)
    ensures Length(Split(x)) == |x| + 1
  {
    if x == [] {
      assert Length([[]]) == 1 + Length([]);
    } else {
      SplitLength(x[1..]);
      var r := Split(x[1..]);
      if x[0] == SLASH {
        assert Split(x)[1..] == r;
      } else {
        assert Split(x)[1..] == r[1..];
      }
    }
  }

  lemma {:induction false} WalkLength(t: Tree, at: Path, todo: seq<Bytes>, l: nat)
    requires NoLinks(t)
    ensures var r := Walk(t, at, todo, l); !r.Fail? ==> |Absolute(r.at)| <= |Absolute(at)| + Length(todo)
    decreases |todo|
  {
    if todo != [] && at in t && t[at].Dir? {
      UpIsShorter(at);
      hide Absolute;
      var name := todo[0];
      var next := at + [name];
      AbsoluteSnoc(at, name);
      if name == [] || name == [DOT] {
        WalkLength(t, at, todo[1..], l);
      } else if name == DOTDOT {
        WalkLength(t, Up(at), todo[1..], l);
      } else if next in t {
        WalkLength(t, next, todo[1..], l);
      }
    }
  }

  lemma UpIsShorter(at: Path)
    ensures |Absolute(Up(at))| <= |Absolute(at)|
  {
  }

  lemma {:induction false} LengthOfFront(todo: seq<Bytes>)
    requires todo != []
    ensures Length(todo) == Length(AllButLast(todo)) + 1 + |todo[|todo| - 1]|
  {
    if |todo| > 1 {
      assert AllButLast(todo)[1..] == AllButLast(todo[1..]);
      LengthOfFront(todo[1..]);
    }
  }

  lemma {:induction false} SkippedIsShorter(rel: Bytes)
    ensures |SkipSlashes(rel)| <= |rel|
  {
    if rel != [] && rel[0] == SLASH {
      SkippedIsShorter(rel[1..]);
    }
  }

  /** With room for the root's name nothing that is resolved is cut. */
  lemma WalksAreShort(t: Tree, top: Path, rel: Bytes)
    requires NoLinks(t) && top != [] && |Render(top)| < STREAM_PATH_SIZE && |rel| < MAX_PATH_LENGTH
    ensures var todo := Split(SkipSlashes(rel));
            var w, f := WalkBelow(t, top, todo), WalkBelow(t, top, AllButLast(todo));
            && (!w.Fail? ==> |Render(w.at)| <= |Render(top)| + |rel| + 1)
            && (!f.Fail? ==> |Render(f.at)| + 1 + |todo[|todo| - 1]| <= MAX_PATH_SIZE
                             && |Absolute(f.at)| + 1 + |todo[|todo| - 1]| <= |Render(top)| + |rel| + 1)
  {
    hide Walk, Split, NoLinks, Absolute, SkipSlashes, Render, Length;
    var todo := Split(SkipSlashes(rel));
    SkippedIsShorter(rel);
    SplitLength(SkipSlashes(rel));
    LengthOfFront(todo);
    RenderLength(top);
    WalkLength(t, top, todo, MAX_LINKS);
    WalkLength(t, top, AllButLast(todo), MAX_LINKS);
    var w, f := WalkBelow(t, top, todo), WalkBelow(t, top, AllButLast(todo));
    if !w.Fail? {
      RenderLength(w.at);
    }
    if !f.Fail? {
      RenderLength(f.at);
    }
  }

  lemma RenderLength(p: Path)
    ensures |Render(p)| == if p == [] then 1 else |Absolute(p)|
    ensures p == [] ==> |Absolute(p)| == 0
  {
  }

  // The answer, as a node or a would-be entry

  /** What the answer names, when it is not cut. */
  function AnswerPath(t: Tree, top: Path, todo: seq<Bytes>): Option<Path>
    requires todo != []
  {
    var w, f := WalkBelow(t, top, todo), WalkBelow(t, top, AllButLast(todo));
    if w.Found? then if top <= w.at then Some(w.at) else None
    else if f.Found? && top <= f.at + [todo[|todo| - 1]] then Some(f.at + [todo[|todo| - 1]])
    else None
  }

  lemma {:induction false} NoSlashes(s: Bytes)
    ensures forall i :: 0 <= i < |Split(s)| ==> SLASH !in Split(s)[i]
  {
    forall i | 0 <= i < |Split(s)| ensures SLASH !in Split(s)[i] {
      SplitHasNoSlash(s, i);
    }
  }

  lemma AnswerFromPath(t: Tree, top: Path, rel: Bytes)
    requires WellFormed(t) && NoLinks(t) && top in t && top != []
    requires |Render(top)| < STREAM_PATH_SIZE && |rel| < MAX_PATH_LENGTH
    ensures var todo := Split(SkipSlashes(rel));
            AnswerFrom(top, WalkBelow(t, top, todo), WalkBelow(t, top, AllButLast(todo)), todo[|todo| - 1]) ==
            match AnswerPath(t, top, todo) case Some(q) => Some(Render(q)) case None => None
  {
    hide Walk, Split, NoLinks, WellFormed, Absolute, SkipSlashes, Render;
    var todo := Split(SkipSlashes(rel));
    var name := todo[|todo| - 1];
    var w, f := WalkBelow(t, top, todo), WalkBelow(t, top, AllButLast(todo));
    WalksAreShort(t, top, rel);
    NoSlashes(SkipSlashes(rel));
    if w.Found? {
      FoundOnTrail(t, top, todo, MAX_LINKS);
      EndInTree(t, top, todo);
      NodeTest(t, w.at, top);
    } else if f.Found? {
      FoundOnTrail(t, top, AllButLast(todo), MAX_LINKS);
      EndInTree(t, top, AllButLast(todo));
      FallbackTest(t, top, todo, f.at, name);
    }
  }

  lemma {:induction false} TrailEnds(at: Path, todo: seq<Bytes>)
    ensures Trail(at, todo)[|todo|] == End(at, todo)
    decreases |todo|
  {
    if todo != [] {
      TrailEnds(StepTo(at, todo[0]), todo[1..]);
    }
  }

  lemma EndInTree(t: Tree, at: Path, todo: seq<Bytes>)
    requires forall i :: 0 <= i <= |todo| ==> Trail(at, todo)[i] in t
    ensures End(at, todo) in t
  {
    TrailEnds(at, todo);
  }

  /** The byte test in the fallback branch. */
  lemma FallbackTest(t: Tree, top: Path, todo: seq<Bytes>, d: Path, name: Bytes)
    requires WellFormed(t) && NoLinks(t) && top in t && top != [] && todo != [] && name == todo[|todo| - 1]
    requires !WalkBelow(t, top, todo).Found? && SLASH !in name
    requires WalkBelow(t, top, AllButLast(todo)).Found? && WalkBelow(t, top, AllButLast(todo)).at == d && d in t
    ensures BelowRoot(Render(d) + [SLASH] + name, Render(top)) <==> top <= d + [name]
    ensures top <= d + [name] ==> Render(d) + [SLASH] + name == Render(d + [name])
  {
    if d == [] {
      RootEntry(t, top, todo, name);
      assert Render([]) == [SLASH];
      DoubleSlashTest(t, name, top);
    } else {
      hide WellFormed, NoLinks, WalkBelow, Absolute;
      AbsoluteSnoc(d, name);
      EntryTest(t, d, name, top);
    }
  }

  /** From the directory "/" a name that leads to the root is found. */
  lemma RootEntry(t: Tree, top: Path, todo: seq<Bytes>, name: Bytes)
    requires WellFormed(t) && NoLinks(t) && top in t && top != [] && todo != [] && name == todo[|todo| - 1]
    requires !WalkBelow(t, top, todo).Found?
    requires WalkBelow(t, top, AllButLast(todo)).Found? && WalkBelow(t, top, AllButLast(todo)).at == []
    ensures !(top <= [] + [name])
  {
    LastStep(t, top, todo);
    assert [] + [name] == [name];
    assert top <= [name] ==> top == [name];
    if [name] in t {
      EntryOfDirectory(t, [], name);
    }
  }

  lemma LastStep(t: Tree, top: Path, todo: seq<Bytes>)
    requires todo != [] && NoLinks(t)
    ensures var f := WalkBelow(t, top, AllButLast(todo));
            var name := todo[|todo| - 1];
            f.Found? ==>
              SameEnd(WalkBelow(t, top, todo),
                      if f.at !in t || !t[f.at].Dir? then Fail
                      else if name == [] || name == [DOT] then Found(f.at, 0)
                      else if name == DOTDOT then Found(Up(f.at), 0)
                      else if f.at + [name] in t then Found(f.at + [name], 0)
                      else if ValidName(name) then Missing(f.at + [name])
                      else Fail)
  {
    var front, name := AllButLast(todo), todo[|todo| - 1];
    assert front + [name] == todo;
    hide Walk;
    WalkAppend(t, top, front, [name], MAX_LINKS);
    var f := WalkBelow(t, top, front);
    if f.Found? {
      OneStep(t, f.at, name, f.links);
    }
  }

  // The paths that see nothing outside

  /** The states of two servers that a client of one root may not tell apart. */
  ghost predicate Alike(place: Place, t: Tree, u: Tree, top: Path) {
    && Served(place, t) && Served(place, u) && NoLinks(t) && NoLinks(u) && Agree(t, u, top)
    && top != [] && RootPath(place, t) == RootPath(place, u) && (RootPath(place, t) in {Some(top), None})
  }

  lemma AlikeTrees(place: Place, t: Tree, u: Tree, top: Path)
    requires Alike(place, t, u, top) && RootPath(place, t) == Some(top)
    ensures top in t && top in u && t[top] == u[top]
  {
    hide RootPath;
    RootIsNode(place, t);
  }

  /** A path that stays on the chain of the root gives the same answer over trees
      that agree at and below it. */
  lemma SameFullPath(place: Place, t: Tree, u: Tree, top: Path, rel: Bytes)
    requires Alike(place, t, u, top) && |rel| < MAX_PATH_LENGTH && Level(top, top, Split(SkipSlashes(rel)))
    ensures FullPath(place, t, rel) == FullPath(place, u, rel)
  {
    hide Walk, Split, WellFormed, NoLinks, Agree, Render, FullPath, RootPath, Level, AnswerFrom, SkipSlashes;
    if RootPath(place, t) == None {
      NoRootNoPath(place, t, rel);
      NoRootNoPath(place, u, rel);
    } else {
      AlikeTrees(place, t, u, top);
      FullPathFrom(place, t, top, rel);
      FullPathFrom(place, u, top, rel);
      var todo := Split(SkipSlashes(rel));
      var front := AllButLast(todo);
      LevelFront(top, top, todo);
      LevelWalks(t, u, top, top, todo, MAX_LINKS, MAX_LINKS);
      LevelWalks(t, u, top, top, front, MAX_LINKS, MAX_LINKS);
      SameAnswer(top, WalkBelow(t, top, todo), WalkBelow(u, top, todo),
                 WalkBelow(t, top, front), WalkBelow(u, top, front), todo[|todo| - 1]);
    }
  }

  /** Over a linkless tree there is no answer to a path that ends outside the root,
      or that has an impossible name before its last. */
  lemma OutsideIsNone(t: Tree, top: Path, todo: seq<Bytes>)
    requires WellFormed(t) && NoLinks(t) && top in t && t[top].Dir? && todo != []
    requires !Nameable(AllButLast(todo)) || !(top <= End(top, todo))
    ensures AnswerPath(t, top, todo) == None
  {
    hide Walk, NoLinks, WellFormed;
    var front, name := AllButLast(todo), todo[|todo| - 1];
    var w, f := WalkBelow(t, top, todo), WalkBelow(t, top, front);
    if w.Found? {
      FoundOnTrail(t, top, todo, MAX_LINKS);
      assert Nameable(front);
    } else if f.Found? {
      FoundOnTrail(t, top, front, MAX_LINKS);
      EndInTree(t, top, front);
      EndAtLast(top, todo);
      LastStep(t, top, todo);
      NodeNamesAreValid(t, top);
      BelowTop(top, f.at, name);
    }
  }

  lemma BelowTop(top: Path, d: Path, name: Bytes)
    ensures top <= d ==> top <= d + [name] && (d != top ==> top <= Up(d))
    ensures top <= d + [name] && !(top <= d) ==> |top| > 0 && top[|top| - 1] == name
  {
  }

  /** A path that makes no detour gives the same answer over such trees. */
  lemma StraightFullPath(place: Place, t: Tree, u: Tree, top: Path, rel: Bytes)
    requires Alike(place, t, u, top) && |Render(top)| < STREAM_PATH_SIZE
    requires |rel| < MAX_PATH_LENGTH && !Detour(top, rel)
    ensures FullPath(place, t, rel) == FullPath(place, u, rel)
  {
    hide Walk, Split, WellFormed, NoLinks, Agree, Render, FullPath, RootPath, Level, AnswerFrom, SkipSlashes, Nameable;
    var todo := Split(SkipSlashes(rel));
    if Level(top, top, todo) {
      SameFullPath(place, t, u, top, rel);
    } else if RootPath(place, t) == None {
      NoRootNoPath(place, t, rel);
      NoRootNoPath(place, u, rel);
    } else {
      AlikeTrees(place, t, u, top);
      FullPathFrom(place, t, top, rel);
      FullPathFrom(place, u, top, rel);
      if t[top].Dir? {
        AnswerFromPath(t, top, rel);
        AnswerFromPath(u, top, rel);
        OutsideIsNone(t, top, todo);
        OutsideIsNone(u, top, todo);
      } else {
        var front := AllButLast(todo);
        WalksFromFile(t, u, top, todo);
        WalksFromFile(t, u, top, front);
        SameAnswer(top, WalkBelow(t, top, todo), WalkBelow(u, top, todo),
                   WalkBelow(t, top, front), WalkBelow(u, top, front), todo[|todo| - 1]);
      }
    }
  }

  lemma WalksFromFile(t: Tree, u: Tree, top: Path, todo: seq<Bytes>)
    requires top in t && top in u && t[top] == u[top] && !t[top].Dir?
    ensures SameEnd(WalkBelow(t, top, todo), WalkBelow(u, top, todo))
  {
  }

  // The paths that do

  function Prefixes(p: Path): set<Path> {
    if p == [] then {[]} else {p} + Prefixes(Up(p))
  }

  lemma {:induction false} PrefixesAre(p: Path, q: Path)
    ensures q in Prefixes(p) <==> q <= p
  {
    if p != [] {
      PrefixesAre(Up(p), q);
      if q <= p && q != p {
        assert q == p[..|q|] == Up(p)[..|q|];
      }
    }
  }

  function Closure(ps: seq<Path>): set<Path> {
    if ps == [] then {[]} else Prefixes(ps[0]) + Closure(ps[1..])
  }

  lemma {:induction false} ClosureIs(ps: seq<Path>, q: Path)
    ensures q in Closure(ps) <==> q == [] || exists i :: 0 <= i < |ps| && q <= ps[i]
  {
    if ps != [] {
      PrefixesAre(ps[0], q);
      ClosureIs(ps[1..], q);
      assert forall i :: 1 <= i < |ps| ==> ps[i] == ps[1..][i - 1];
      assert forall i :: 0 <= i < |ps| - 1 ==> ps[1..][i] == ps[i + 1];
    }
  }

  /** The tree in which all positions, and what leads to them, are directories. */
  function Paved(ps: seq<Path>): Tree {
    map p | p in Closure(ps) :: Dir
  }

  /** A tree without one of its subtrees. */
  function Without(t: Tree, q: Path): Tree {
    map p | p in t && !(q <= p) :: t[p]
  }

  lemma PavedIsTree(ps: seq<Path>)
    requires forall i :: 0 <= i < |ps| ==> ValidNames(ps[i])
    ensures WellFormed(Paved(ps)) && NoLinks(Paved(ps))
    ensures forall i :: 0 <= i < |ps| ==> ps[i] in Paved(ps)
    ensures forall p :: p in Paved(ps) ==> Paved(ps)[p].Dir? && Up(p) in Paved(ps)
  {
    hide ValidName;
    forall p | p in Paved(ps)
      ensures Up(p) in Paved(ps) && (p != [] ==> ValidName(Last(p)))
    {
      ClosureIs(ps, p);
      ClosureIs(ps, Up(p));
      if p != [] {
        var i :| 0 <= i < |ps| && p <= ps[i];
        assert Up(p) <= ps[i] && Last(p) == ps[i][|p| - 1];
      }
    }
    ClosureIs(ps, []);
    forall i | 0 <= i < |ps| ensures ps[i] in Paved(ps) {
      ClosureIs(ps, ps[i]);
    }
  }

  lemma {:induction false} TrailNames(at: Path, todo: seq<Bytes>)
    requires ValidNames(at) && Nameable(todo)
    ensures forall i :: 0 <= i <= |todo| ==> ValidNames(Trail(at, todo)[i])
    decreases |todo|
  {
    hide ValidName;
    if todo != [] {
      var next := StepTo(at, todo[0]);
      assert forall i :: 0 <= i < |next| ==> next[i] == if i < |at| then at[i] else todo[0];
      assert forall i :: 0 <= i < |todo[1..]| ==> todo[1..][i] == todo[i + 1];
      TrailNames(next, todo[1..]);
      assert Trail(at, todo) == [at] + Trail(next, todo[1..]);
    }
  }

  lemma {:induction false} OffTheChain(top: Path, at: Path, todo: seq<Bytes>) returns (i: nat)
    requires !Level(top, at, todo)
    ensures i <= |todo| && !OnChain(top, Trail(at, todo)[i])
    decreases |todo|
  {
    if !OnChain(top, at) {
      i := 0;
    } else {
      var next := StepTo(at, todo[0]);
      i := OffTheChain(top, next, todo[1..]);
      assert Trail(at, todo)[i + 1] == Trail(next, todo[1..])[i];
      i := i + 1;
    }
  }

  lemma {:induction false} TrailOfFront(at: Path, todo: seq<Bytes>)
    requires todo != []
    ensures forall i :: 0 <= i < |todo| ==> Trail(at, AllButLast(todo))[i] == Trail(at, todo)[i]
    decreases |todo|
  {
    var next := StepTo(at, todo[0]);
    if |todo| > 1 {
      assert AllButLast(todo)[1..] == AllButLast(todo[1..]);
      TrailOfFront(next, todo[1..]);
      assert Trail(at, todo) == [at] + Trail(next, todo[1..]);
      assert Trail(at, AllButLast(todo)) == [at] + Trail(next, AllButLast(todo[1..]));
    }
  }

  /** Two trees that agree at and below the root, with a known root. */
  ghost predicate AlikeAt(place: Place, t: Tree, u: Tree, top: Path) {
    Alike(place, t, u, top) && RootPath(place, t) == Some(top)
  }

  lemma WithoutIsTree(t: Tree, q: Path, top: Path)
    requires WellFormed(t) && NoLinks(t) && top in t && !OnChain(top, q)
    ensures WellFormed(Without(t, q)) && NoLinks(Without(t, q)) && Agree(t, Without(t, q), top)
    ensures top in Without(t, q) && q !in Without(t, q)
  {
    var u := Without(t, q);
    forall p | p in u && p != [] ensures ValidName(Last(p)) && Up(p) in u && u[Up(p)].Dir? {
      assert q <= Up(p) ==> q <= p;
    }
    forall p | top <= p ensures p in t <==> p in u {
      BothAbove(top, q, p);
    }
    assert q != [];
  }

  lemma BothAbove(top: Path, q: Path, p: Path)
    ensures top <= p && q <= p ==> OnChain(top, q)
  {
    if top <= p && q <= p {
      assert q == p[..|q|] && top == p[..|top|];
      assert if |q| <= |top| then q <= top else top <= q;
    }
  }

  lemma RootNamesItself(place: Place, t: Tree, top: Path)
    requires WellFormed(t) && NoLinks(t) && top in t && place.root == Render(top) && |place.root| < 1024
    ensures Served(place, t) && RootPath(place, t) == Some(top)
  {
    hide Walk, Split, WellFormed, Render;
    ResolveRender(t, place.cwd, top);
  }

  /** The answer over the tree in which the way is paved. */
  lemma PavedAnswer(t: Tree, top: Path, todo: seq<Bytes>)
    requires WellFormed(t) && NoLinks(t) && top in t && todo != [] && top <= End(top, todo)
    requires forall p :: p in t ==> t[p].Dir? && Up(p) in t
    requires forall i :: 0 <= i < |todo| ==> Trail(top, AllButLast(todo))[i] in t
    ensures AnswerPath(t, top, todo).Some?
  {
    hide Walk, WellFormed, NoLinks, ValidName;
    var front, name := AllButLast(todo), todo[|todo| - 1];
    WalkThrough(t, top, front, MAX_LINKS);
    EndAtLast(top, todo);
    EndInTree(t, top, front);
    LastStep(t, top, todo);
    if !WalkBelow(t, top, todo).Found? {
      assert End(top, todo) == End(top, front) + [name];
    } else if End(top, todo) in t {
      assert WalkBelow(t, top, todo).at == End(top, todo);
    }
  }

  /** Over the tree in which one position is missing there is no answer. */
  lemma MissedAnswer(t: Tree, top: Path, todo: seq<Bytes>, i: nat)
    requires WellFormed(t) && NoLinks(t) && top in t && todo != []
    requires i < |todo| && Trail(top, todo)[i] !in t
    ensures AnswerPath(t, top, todo) == None
  {
    hide Walk, WellFormed, NoLinks;
    var front := AllButLast(todo);
    TrailOfFront(top, todo);
    if WalkBelow(t, top, todo).Found? {
      FoundOnTrail(t, top, todo, MAX_LINKS);
    }
    if WalkBelow(t, top, front).Found? {
      FoundOnTrail(t, top, front, MAX_LINKS);
    }
  }

  /** For every detour there are two trees that a client of the root may not tell
      apart and that give different answers. */
  lemma DetourShows(place: Place, top: Path, rel: Bytes) returns (t: Tree, u: Tree)
    requires place.root == Render(top) && top != [] && ValidNames(top) && |place.root| < 1024
    requires |rel| < MAX_PATH_LENGTH && Detour(top, rel)
    ensures AlikeAt(place, t, u, top) && FullPath(place, t, rel) != FullPath(place, u, rel)
  {
    hide Walk, Split, WellFormed, NoLinks, Agree, Render, FullPath, RootPath, Nameable, SkipSlashes, AnswerPath,
      ValidNames, Paved, Without, OnChain, AnswerFrom, Served, ValidName;
    var todo := Split(SkipSlashes(rel));
    var front := AllButLast(todo);
    TrailNames(top, front);
    t := Paved(Trail(top, front));
    PavedIsTree(Trail(top, front));
    assert Trail(top, front)[0] == top;
    var i := OffTheChain(top, top, todo);
    TrailEnds(top, todo);
    EndOnChain(top, End(top, todo));
    TrailOfFront(top, todo);
    var q := Trail(top, todo)[i];
    WithoutIsTree(t, q, top);
    u := Without(t, q);
    RootNamesItself(place, t, top);
    RootNamesItself(place, u, top);
    DetourIsLonger(top, rel);
    FullPathFrom(place, t, top, rel);
    FullPathFrom(place, u, top, rel);
    AnswerFromPath(t, top, rel);
    AnswerFromPath(u, top, rel);
    PavedAnswer(t, top, todo);
    MissedAnswer(u, top, todo, i);
  }

  lemma EndOnChain(top: Path, p: Path)
    requires top <= p
    ensures OnChain(top, p)
  {
  }

  lemma DetourIsLonger(top: Path, rel: Bytes)
    requires Detour(top, rel)
    ensures SkipSlashes(rel) != []
  {
    assert Split([]) == [[]];
    LevelHere(top);
  }

  lemma LevelHere(top: Path)
    ensures Level(top, top, [[]])
  {
    var todo: seq<Bytes> := [[]];
    assert todo[1..] == [];
  }

  /** get_full_path's answer depends on the subtree at the root alone exactly for
      the paths that make no detour. */
  lemma AnswersDependOnRootExactly(place: Place, top: Path, rel: Bytes)
    requires place.root == Render(top) && top != [] && ValidNames(top) && |place.root| < 1024
    requires |rel| < MAX_PATH_LENGTH
    ensures (forall t, u :: AlikeAt(place, t, u, top) ==> FullPath(place, t, rel) == FullPath(place, u, rel)) <==>
            !Detour(top, rel)
  {
    hide FullPath, Detour, Alike, RootPath, Render, ValidNames;
    if Detour(top, rel) {
      var t, u := DetourShows(place, top, rel);
    } else {
      forall t, u | AlikeAt(place, t, u, top) ensures FullPath(place, t, rel) == FullPath(place, u, rel) {
        StraightFullPath(place, t, u, top, rel);
      }
    }
  }
}
