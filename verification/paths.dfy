/** The file tree and how a pathname names one of its nodes: section 4.13,
    "Pathname Resolution", of the POSIX.1-2017 Base Definitions. */
module Paths {
  import opened CBytes

  type Path = seq<Bytes>

  datatype Node = File(content: Bytes) | Dir | Link(target: Bytes)

  type Tree = map<Path, Node>

  /** Symbolic links followed in one resolution before it fails with ELOOP. */
  const MAX_LINKS: nat := 40
  const NAME_MAX: nat := 255
  const PATH_MAX: nat := 4096

  const DOTDOT: Bytes := [DOT, DOT]

  predicate ValidName(n: Bytes) {
    && 0 < |n| <= NAME_MAX
    && SLASH !in n && NUL !in n
    && n != [DOT] && n != DOTDOT
  }

  function Up(p: Path): Path {
    if p == [] then [] else p[..|p| - 1]
  }

  function Last(p: Path): Bytes
    requires p != []
  {
    p[|p| - 1]
  }

  /** Every node other than the top is a validly named entry of a directory. */
  ghost predicate WellFormed(t: Tree) {
    && [] in t && t[[]].Dir?
    && forall p :: p in t && p != [] ==> ValidName(Last(p)) && Up(p) in t && t[Up(p)].Dir?
  }

  // Pathnames and component lists

  /** The components of a pathname; two slashes in a row enclose an empty one. */
  function Split(s: Bytes): (r: seq<Bytes>)
    ensures r != []
  {
    if s == [] then [[]]
    else if s[0] == SLASH then [[]] + Split(s[1..])
    else
      var r := Split(s[1..]);
      [[s[0]] + r[0]] + r[1..]
  }

  function Absolute(p: Path): Bytes {
    if p == [] then [] else Absolute(Up(p)) + [SLASH] + Last(p)
  }

  /** The canonical absolute pathname of a node. */
  function Render(p: Path): (r: Bytes)
    ensures r != [] && r[0] == SLASH
  {
    if p == [] then [SLASH] else AbsoluteStarts(p); Absolute(p)
  }

  lemma {:induction false} AbsoluteStarts(p: Path)
    requires p != []
    ensures Absolute(p) != [] && Absolute(p)[0] == SLASH
  {
    if |p| > 1 {
      AbsoluteStarts(Up(p));
    }
  }

  lemma {:induction false} SplitAtSlash(a: Bytes, b: Bytes)
    ensures Split(a + [SLASH] + b) == Split(a) + Split(b)
  {
    var s := a + [SLASH] + b;
    if a == [] {
      assert s[1..] == b;
    } else {
      assert s[1..] == a[1..] + [SLASH] + b;
      SplitAtSlash(a[1..], b);
    }
  }

  lemma {:induction false} SplitOne(n: Bytes)
    requires SLASH !in n
    ensures Split(n) == [n]
  {
    if n != [] {
      SplitOne(n[1..]);
      assert [n[0]] + n[1..] == n;
    }
  }

  ghost predicate ValidNames(p: Path) {
    forall i :: 0 <= i < |p| ==> ValidName(p[i])
  }

  /** Enough for a component list to be read back from its pathname. */
  ghost predicate Plain(p: Path) {
    && (forall i :: 0 <= i < |p| ==> SLASH !in p[i])
    && (p != [] ==> p[0] != [])
  }

  /** Splitting a canonical pathname gives back the node's component list. */
  lemma {:induction false} SplitAbsolute(p: Path)
    requires Plain(p)
    ensures Split(Absolute(p)) == [[]] + p
  {
    if p != [] {
      SplitAbsolute(Up(p));
      SplitAtSlash(Absolute(Up(p)), Last(p));
      SplitOne(Last(p));
      assert [[]] + Up(p) + [Last(p)] == [[]] + p;
    }
  }

  lemma {:induction false} NodeNamesAreValid(t: Tree, p: Path)
    requires WellFormed(t) && p in t
    ensures ValidNames(p)
  {
    if p != [] {
      NodeNamesAreValid(t, Up(p));
      forall i | 0 <= i < |p| ensures ValidName(p[i]) {
        assert i < |p| - 1 ==> p[i] == Up(p)[i];
      }
    }
  }

  // Resolution

  datatype Walked =
    | Found(at: Path, links: nat)  // the node, and how many links may still be followed
    | Missing(at: Path)            // only the last component is absent, from an existing directory
    | Fail

  /** Resolve the components todo from the node at, following links. */
  function Walk(t: Tree, at: Path, todo: seq<Bytes>, links: nat): (r: Walked)
    decreases links, |todo|
  {
    if todo == [] then Found(at, links)
    else if at !in t || !t[at].Dir? then Fail
    else
      var name := todo[0];
      var next := at + [name];
      if name == [] || name == [DOT] then Walk(t, at, todo[1..], links)
      else if name == DOTDOT then Walk(t, Up(at), todo[1..], links)
      else if next !in t then
        if |todo| == 1 && ValidName(name) then Missing(next) else Fail
      else if t[next].Link? then
        var target := t[next].target;
        if links == 0 || target == [] then Fail
        else Walk(t, if target[0] == SLASH then [] else at, Split(target) + todo[1..], links - 1)
      else Walk(t, next, todo[1..], links)
  }

  function Start(cwd: Path, s: Bytes): Path {
    if s != [] && s[0] == SLASH then [] else cwd
  }

  /** What the kernel does with a pathname: the empty one names nothing. */
  function Resolve(t: Tree, cwd: Path, s: Bytes): Walked {
    if s == [] then Fail else Walk(t, Start(cwd, s), Split(s), MAX_LINKS)
  }

  function Realpath(t: Tree, cwd: Path, s: Bytes): Option<Path> {
    match Resolve(t, cwd, s)
    case Found(p, _) => if |Render(p)| < PATH_MAX then Some(p) else None
    case _ => None
  }

  /** Resolution in two stages is resolution of the whole. */
  lemma {:induction false} WalkAppend(t: Tree, at: Path, a: seq<Bytes>, b: seq<Bytes>, links: nat)
    requires b != []
    ensures Walk(t, at, a + b, links) ==
            match Walk(t, at, a, links)
            case Found(p, l) => Walk(t, p, b, l)
            case _ => Fail
    decreases links, |a|
  {
    if a == [] {
      assert a + b == b;
    } else if at in t && t[at].Dir? {
      var name := a[0];
      var next := at + [name];
      assert (a + b)[1..] == a[1..] + b;
      if name == [] || name == [DOT] {
        WalkAppend(t, at, a[1..], b, links);
      } else if name == DOTDOT {
        WalkAppend(t, Up(at), a[1..], b, links);
      } else if next in t && t[next].Link? {
        var target := t[next].target;
        if links > 0 && target != [] {
          assert Split(target) + (a[1..] + b) == (Split(target) + a[1..]) + b;
          WalkAppend(t, if target[0] == SLASH then [] else at, Split(target) + a[1..], b, links - 1);
        }
      } else if next in t {
        WalkAppend(t, next, a[1..], b, links);
      }
    }
  }

  lemma UpIsDirectory(t: Tree, at: Path)
    requires WellFormed(t) && at in t && t[at].Dir?
    ensures Up(at) in t && t[Up(at)].Dir?
  {
  }

  lemma NewEntry(at: Path, name: Bytes)
    ensures at + [name] != [] && Up(at + [name]) == at && Last(at + [name]) == name
  {
  }

  /** What resolution finds is a node of the tree and never a link; what it
      misses is an absent, validly named entry of a directory. */
  lemma {:induction false} WalkSound(t: Tree, at: Path, todo: seq<Bytes>, links: nat)
    requires WellFormed(t) && (todo == [] ==> at in t && !t[at].Link?)
    ensures var r := Walk(t, at, todo, links);
            && (r.Found? ==> r.at in t && !t[r.at].Link?)
            && (r.Missing? ==> r.at !in t && r.at != [] && ValidName(Last(r.at)) && Up(r.at) in t && t[Up(r.at)].Dir?)
    decreases links, |todo|
  {
    hide WellFormed, Split, ValidName, Up, Last;
    if todo != [] && at in t && t[at].Dir? {
      var name := todo[0];
      var next := at + [name];
      NewEntry(at, name);
      if name == [] || name == [DOT] {
        WalkSound(t, at, todo[1..], links);
      } else if name == DOTDOT {
        UpIsDirectory(t, at);
        WalkSound(t, Up(at), todo[1..], links);
      } else if next in t {
        if t[next].Link? {
          var target := t[next].target;
          if links > 0 && target != [] {
            WalkSound(t, if target[0] == SLASH then [] else at, Split(target) + todo[1..], links - 1);
          }
        } else {
          WalkSound(t, next, todo[1..], links);
        }
      }
    }
  }

  /** A component list that is a node's own path leads to that node without
      following any link. */
  lemma {:induction false} WalkNode(t: Tree, p: Path, q: Path, links: nat)
    requires WellFormed(t) && p + q in t && !t[p + q].Link?
    ensures p in t && !t[p].Link?
    ensures Walk(t, p, q, links) == Found(p + q, links)
    decreases |q|
  {
    hide WellFormed;
    if q == [] {
      assert p + q == p;
    } else {
      var next, rest := p + [q[0]], q[1..];
      assert p + q == next + rest;
      WalkNode(t, next, rest, links);
      EntryOfDirectory(t, p, q[0]);
    }
  }

  lemma EntryOfDirectory(t: Tree, p: Path, name: Bytes)
    requires WellFormed(t) && p + [name] in t
    ensures ValidName(name) && p in t && t[p].Dir?
  {
    var next := p + [name];
    assert Up(next) == p && Last(next) == name;
  }

  /** The canonical pathname of a node names that node. */
  lemma ResolveRender(t: Tree, cwd: Path, p: Path)
    requires WellFormed(t) && p in t && !t[p].Link?
    ensures Resolve(t, cwd, Render(p)) == Found(p, MAX_LINKS)
  {
    if p == [] {
      SplitAtSlash([], []);
      assert Render(p) == [] + [SLASH] + [];
      assert Walk(t, [], [[]], MAX_LINKS) == Found([], MAX_LINKS);
    } else {
      NodeNamesAreValid(t, p);
      SplitAbsolute(p);
      assert [] + p == p && ([[]] + p)[1..] == p;
      WalkNode(t, [], p, MAX_LINKS);
    }
  }

  // Byte prefixes and tree ancestry

  /** The test of get_full_path: strncmp over the root's length, then NUL or a slash. */
  predicate BelowRoot(resolved: Bytes, root: Bytes) {
    && root <= resolved
    && (|resolved| == |root| || resolved[|root|] == SLASH)
  }

  lemma {:induction false} AbsoluteAppend(p: Path, q: Path)
    ensures Absolute(p + q) == Absolute(p) + Absolute(q)
  {
    if q == [] {
      assert p + q == p;
    } else {
      hide Absolute;
      var front, name := Up(q), Last(q);
      AbsoluteAppend(p, front);
      assert q == front + [name] && p + q == (p + front) + [name];
      AbsoluteSnoc(p + front, name);
      AbsoluteSnoc(front, name);
      SlashAssociates(Absolute(p), Absolute(front), name);
    }
  }

  lemma SlashAssociates(a: Bytes, b: Bytes, name: Bytes)
    ensures (a + b) + [SLASH] + name == a + (b + [SLASH] + name)
  {
  }

  lemma AbsoluteSnoc(p: Path, name: Bytes)
    ensures Absolute(p + [name]) == Absolute(p) + [SLASH] + name
  {
    assert Up(p + [name]) == p;
  }

  /** On canonical pathnames the byte test is tree ancestry, except that a root
      of "/" accepts itself only. */
  lemma ByteTestIsAncestry(p: Path, root: Path)
    requires Plain(p) && Plain(root)
    ensures BelowRoot(Render(p), Render(root)) <==> root <= p && (root == [] ==> p == [])
  {
    if root == [] {
      if p != [] {
        AbsoluteSecond(p);
      }
    } else {
      AbsoluteSecond(root);
      if root <= p {
        AncestryPassesByteTest(p, root);
      }
      if p != [] && BelowRoot(Absolute(p), Absolute(root)) {
        ByteTestGivesAncestry(p, root);
      }
    }
  }

  lemma AncestryPassesByteTest(p: Path, root: Path)
    requires root <= p
    ensures BelowRoot(Absolute(p), Absolute(root))
  {
    var q := p[|root|..];
    assert root + q == p;
    AbsoluteAppend(root, q);
    if q != [] {
      AbsoluteStarts(q);
    }
  }

  lemma ByteTestGivesAncestry(p: Path, root: Path)
    requires Plain(p) && Plain(root)
    requires BelowRoot(Absolute(p), Absolute(root))
    ensures root <= p
  {
    hide Absolute, Split;
    SplitAbsolute(p);
    SplitAbsolute(root);
    var a, b := Absolute(p), Absolute(root);
    if |a| == |b| {
      assert a == b;
      SameTail(p, root, []);
    } else {
      var rest := a[|b| + 1..];
      assert a == b + [SLASH] + rest;
      SplitAtSlash(b, rest);
      SameTail(p, root, Split(rest));
    }
  }

  lemma SameTail(p: Path, root: Path, rest: Path)
    requires [[]] + p == [[]] + root + rest
    ensures p == root + rest
  {
    assert p == ([[]] + p)[1..];
    assert root + rest == ([[]] + root + rest)[1..];
  }

  lemma {:induction false} AbsoluteSecond(p: Path)
    requires p != [] && Plain(p)
    ensures |Absolute(p)| >= 2 && Absolute(p)[1] != SLASH
  {
    if |p| > 1 {
      AbsoluteSecond(Up(p));
    } else {
      assert Absolute(Up(p)) == [];
    }
  }
}
