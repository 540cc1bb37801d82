/** What get_full_path's answer names once it has been copied into the caller's
    buffer, where it may be cut. */
module Answers {
  import opened CBytes
  import opened Paths
  import opened Resolve

  lemma {:induction false} AncestorIn(t: Tree, p: Path, e: Path)
    requires WellFormed(t) && p in t && e <= p
    ensures e in t && (e != p ==> t[e].Dir?)
  {
    if e != p {
      assert e <= Up(p);
      AncestorIn(t, Up(p), e);
    }
  }

  /** A front part of a canonical pathname is that of an ancestor, a slash and a
      front part of the next name. */
  lemma {:induction false} CutAbsolute(q: Path, m: nat) returns (e: Path, name: Bytes)
    requires q != [] && 0 < m < |Absolute(q)|
    ensures |e| < |q| && e <= q && name <= q[|e|]
    ensures Absolute(q)[..m] == Absolute(e) + [SLASH] + name
  {
    var front, last := Up(q), Last(q);
    assert Absolute(q) == Absolute(front) + [SLASH] + last;
    if m > |Absolute(front)| {
      hide Absolute;
      e, name := front, last[..m - |Absolute(front)| - 1];
    } else if m == |Absolute(front)| {
      assert front != [];
      e, name := Up(front), Last(front);
    } else {
      e, name := CutAbsolute(front, m);
      hide Absolute;
      assert Absolute(q)[..m] == Absolute(front)[..m];
    }
  }

  /** When the front part is long enough for an ancestor's pathname, it is at or
      below that ancestor. */
  lemma CutKeepsAncestor(q: Path, top: Path, m: nat, e: Path, name: Bytes)
    requires |e| < |q| && e <= q && name <= q[|e|] && top <= q && top != []
    requires m <= |Absolute(q)| && Absolute(q)[..m] == Absolute(e) + [SLASH] + name && |Absolute(top)| <= m
    ensures top <= e || e + [name] == top
  {
    hide Absolute;
    if |e| < |top| {
      var next, rest := q[|e|], top[|e| + 1..];
      SamePrefix(q, top, e);
      LengthsAdd(e, next, rest);
      assert m == |Absolute(e)| + 1 + |name|;
      assert |Absolute(rest)| == 0 && |name| == |next|;
      assert name == next;
      assert rest == [];
    }
  }

  lemma SamePrefix(q: Path, top: Path, e: Path)
    requires e <= q && top <= q && |e| < |top|
    ensures top == (e + [q[|e|]]) + top[|e| + 1..]
  {
    assert top[..|e|] == q[..|e|] == e;
  }

  lemma LengthsAdd(e: Path, next: Bytes, rest: Path)
    ensures |Absolute((e + [next]) + rest)| == |Absolute(e)| + 1 + |next| + |Absolute(rest)|
    ensures rest != [] ==> |Absolute(rest)| > 0
  {
    hide Absolute;
    AbsoluteAppend(e + [next], rest);
    AbsoluteSnoc(e, next);
    if rest != [] {
      AbsoluteStarts(rest);
    }
  }

  /** What the answer in the caller's buffer names: an entry of a directory, which
      is at or below the root as far as the buffer holds the root's own name. */
  lemma AnswerShape(place: Place, t: Tree, rel: Bytes, top: Path, n: nat) returns (d: Path, name: Bytes)
    requires Served(place, t) && RootPath(place, t) == Some(top) && top != []
    requires 1 < n <= MAX_PATH_SIZE && FullPath(place, t, rel).Some?
    ensures d in t && !t[d].Link? && SLASH !in name
    ensures FullPathIn(place, t, rel, n) == Some(Render(d + [name])) && |Render(d + [name])| < n
    ensures |Render(top)| < n ==> top <= d || d + [name] == top
  {
    hide Walk, Split, WellFormed, FullPath, RootPath, Absolute, TempPath;
    RootIsNode(place, t);
    var q := FullPathIsContained(place, t, rel, top);
    if !(top <= q) {
      q := top;
    } else if FallsBack(place, t, rel) {
      FallbackRenders(place, t, rel, q, top);
      CutAgain(Render(q), PATH_MAX - 1, n - 1);
    }
    assert FullPathIn(place, t, rel, n) == Some(Cut(Render(q), n - 1));
    assert q in t || (Up(q) in t && !t[Up(q)].Link? && SLASH !in Last(q));
    d, name := CutNode(t, q, top, n - 1);
  }

  lemma CutAgain(s: Bytes, m: nat, n: nat)
    requires n <= m
    ensures Cut(Cut(s, m), n) == Cut(s, n)
  {
  }

  lemma FallbackRenders(place: Place, t: Tree, rel: Bytes, q: Path, top: Path)
    requires Served(place, t) && RootPath(place, t) == Some(top) && top != [] && top <= q
    requires FullPath(place, t, rel).Some?
    requires FullPath(place, t, rel).value == Cut(Render(Up(q)) + [SLASH] + Last(q), PATH_MAX - 1)
    ensures FullPath(place, t, rel).value == Cut(Render(q), PATH_MAX - 1)
  {
    hide Walk, Split, WellFormed, Absolute, TempPath, Resolved;
    RootIsNode(place, t);
    assert Up(q) + [Last(q)] == q;
    AbsoluteSnoc(Up(q), Last(q));
    if Up(q) == [] {
      var r := FullPath(place, t, rel).value;
      assert Render([]) == [SLASH];
      assert r == [SLASH] + [SLASH] + r[2..];
      DoubleSlashTest(t, r[2..], top);
      assert false;
    }
  }

  lemma CutNode(t: Tree, q: Path, top: Path, m: nat) returns (d: Path, name: Bytes)
    requires WellFormed(t) && top <= q && top != [] && 0 < m
    requires q in t || (Up(q) in t && !t[Up(q)].Link? && SLASH !in Last(q))
    ensures d in t && !t[d].Link? && SLASH !in name
    ensures Cut(Render(q), m) == Render(d + [name])
    ensures |Render(top)| <= m ==> top <= d || d + [name] == top
  {
    var front := Up(q);
    assert front + [Last(q)] == q;
    assert front in t && !t[front].Link? && SLASH !in Last(q);
    hide WellFormed, Absolute;
    if |Render(q)| <= m {
      d, name := front, Last(q);
    } else {
      d, name := CutAbsolute(q, m);
      AbsoluteSnoc(d, name);
      assert d <= front;
      AncestorIn(t, front, d);
      NodeNamesAreValid(t, front);
      assert |d| < |front| ==> q[|d|] == front[|d|];
      if |Render(top)| <= m {
        CutKeepsAncestor(q, top, m, d, name);
      }
    }
  }

  /** The same nodes outside the subtree at top. */
  ghost predicate SameOutside(t: Tree, u: Tree, top: Path) {
    forall p :: !(top <= p) ==> (p in t <==> p in u) && (p in t ==> t[p] == u[p])
  }

  // Pathnames that end in a link

  predicate EndsInLink(t: Tree, cwd: Path, s: Bytes) {
    match Entry(t, cwd, s)
    case Some(e) => e in t && t[e].Link?
    case None => false
  }

  /** Where the link leads. */
  function LinkEnd(t: Tree, cwd: Path, s: Bytes): Walked
    requires EndsInLink(t, cwd, s)
  {
    var e := Entry(t, cwd, s).value;
    var target := t[e].target;
    if target == [] then Fail
    else Walk(t, if target[0] == SLASH then [] else Up(e), Split(target), MAX_LINKS - 1)
  }

  /** fopen for writing opens the very entry that the pathname denotes exactly
      when that entry is no link. */
  lemma OpensTheEntry(t: Tree, cwd: Path, s: Bytes)
    requires WellFormed(t) && OpenWrite(t, cwd, s).Some?
    ensures Entry(t, cwd, s) == OpenWrite(t, cwd, s) <==> !EndsInLink(t, cwd, s)
  {
    var todo := Split(s);
    var front, name := AllButLast(todo), todo[|todo| - 1];
    assert front + [name] == todo;
    hide Walk, Split;
    SplitHasNoSlash(s, |todo| - 1);
    WalkAppend(t, Start(cwd, s), front, [name], MAX_LINKS);
    var w := Walk(t, Start(cwd, s), front, MAX_LINKS);
    OpensInDirectory(t, cwd, w.at, name, w.links, OpenWrite(t, cwd, s).value);
  }

  lemma {:induction false} SplitHasNoSlash(s: Bytes, i: nat)
    requires i < |Split(s)|
    ensures SLASH !in Split(s)[i]
  {
    if s != [] {
      if s[0] == SLASH {
        if i > 0 {
          SplitHasNoSlash(s[1..], i - 1);
        }
      } else {
        SplitHasNoSlash(s[1..], i);
      }
    }
  }

  lemma OpensInDirectory(t: Tree, cwd: Path, d: Path, name: Bytes, links: nat, p: Path)
    requires WellFormed(t)
    requires var w := Walk(t, d, [name], links);
             (w == Missing(p)) || (w.Found? && w.at == p && p in t && t[p].File?)
    ensures d in t && t[d].Dir? && ValidName(name)
    ensures d + [name] == p <==> !(d + [name] in t && t[d + [name]].Link?)
  {
    if d + [name] in t {
      EntryOfDirectory(t, d, name);
    }
    assert d in t && t[d].Dir? by {
      hide WellFormed;
    }
    assert t[Up(d)].Dir?;
    hide WellFormed;
    if d + [name] in t && t[d + [name]].Link? {
      WalkSound(t, d, [name], links);
    } else {
      OneStep(t, d, name, links);
    }
  }

  /** The file a PUT opens is at or below the root exactly when the link that the
      pathname ends in leads there, or, when it ends in none, the root's own name
      fits the 1024-byte buffer. */
  lemma PutIsContained(place: Place, t: Tree, rel: Bytes, top: Path, p: Path)
    requires Served(place, t) && RootPath(place, t) == Some(top) && PutTarget(place, t, rel) == Some(p)
    ensures var s := FullPathIn(place, t, rel, STREAM_PATH_SIZE).value;
            top <= p <==>
            top == [] ||
            if EndsInLink(t, place.cwd, s)
            then !LinkEnd(t, place.cwd, s).Fail? && top <= LinkEnd(t, place.cwd, s).at
            else |Render(top)| < STREAM_PATH_SIZE
  {
    hide WellFormed, FullPath, RootPath, Absolute, Walk, Split;
    if top != [] {
      var d, name := AnswerShape(place, t, rel, top, STREAM_PATH_SIZE);
      var s := Render(d + [name]);
      ResolveBelow(t, place.cwd, d, name);
      OpensTheEntry(t, place.cwd, s);
      if EndsInLink(t, place.cwd, s) {
        FollowsLink(t, place.cwd, d, name);
      } else if top <= p {
        AncestorIsShorter(top, p);
      }
    }
  }

  /** The same for what is read: the file that the answer in a buffer of n bytes
      leads to is at or below the root exactly under that condition. */
  lemma GetIsContained(place: Place, t: Tree, rel: Bytes, top: Path, n: nat, p: Path)
    requires Served(place, t) && RootPath(place, t) == Some(top) && 1 < n <= MAX_PATH_SIZE
    requires FullPath(place, t, rel).Some? && Stat(t, place.cwd, FullPathIn(place, t, rel, n).value) == Some(p)
    requires p in t && t[p].File?
    ensures var s := FullPathIn(place, t, rel, n).value;
            top <= p <==>
            top == [] ||
            if EndsInLink(t, place.cwd, s)
            then !LinkEnd(t, place.cwd, s).Fail? && top <= LinkEnd(t, place.cwd, s).at
            else |Render(top)| < n
  {
    hide WellFormed, FullPath, RootPath, Absolute, Walk, Split;
    if top != [] {
      var d, name := AnswerShape(place, t, rel, top, n);
      var s := Render(d + [name]);
      ResolveBelow(t, place.cwd, d, name);
      OpensInDirectory(t, place.cwd, d, name, MAX_LINKS, p);
      if EndsInLink(t, place.cwd, s) {
        FollowsLink(t, place.cwd, d, name);
      } else if top <= p {
        AncestorIsShorter(top, p);
      }
    }
  }

  lemma AncestorIsShorter(top: Path, p: Path)
    requires top != [] && top <= p
    ensures |Render(top)| <= |Render(p)|
  {
    hide Absolute;
    AbsoluteAppend(top, p[|top|..]);
    assert top + p[|top|..] == p;
  }

  lemma RenderIsAbsolute(p: Path)
    requires p != []
    ensures Render(p) == Absolute(p)
  {
  }

  lemma FollowsLink(t: Tree, cwd: Path, d: Path, name: Bytes)
    requires WellFormed(t) && d in t && !t[d].Link? && SLASH !in name
    requires EndsInLink(t, cwd, Render(d + [name]))
    ensures Paths.Resolve(t, cwd, Render(d + [name])) == LinkEnd(t, cwd, Render(d + [name]))
  {
    ResolveBelow(t, cwd, d, name);
    EntryOfDirectory(t, d, name);
    hide WellFormed, Split, Render;
    var target := t[d + [name]].target;
    assert Split(target) + [name][1..] == Split(target);
    assert Up(d + [name]) == d;
  }

  /** PUT changes nothing outside the root, whatever is put, exactly under that
      condition. */
  lemma PutChangesBelowOnly(place: Place, t: Tree, rel: Bytes, top: Path, p: Path)
    requires Served(place, t) && RootPath(place, t) == Some(top) && PutTarget(place, t, rel) == Some(p)
    ensures var s := FullPathIn(place, t, rel, STREAM_PATH_SIZE).value;
            (forall content :: SameOutside(t, t[p := File(content)], top)) <==>
            top == [] ||
            if EndsInLink(t, place.cwd, s)
            then !LinkEnd(t, place.cwd, s).Fail? && top <= LinkEnd(t, place.cwd, s).at
            else |Render(top)| < STREAM_PATH_SIZE
  {
    hide Served, FullPath, RootPath, PutTarget, Render, Absolute, Walk, Split, EndsInLink, LinkEnd;
    PutIsContained(place, t, rel, top, p);
    PutChangesTarget(t, p, top);
  }

  lemma PutChangesTarget(t: Tree, p: Path, top: Path)
    ensures (forall content :: SameOutside(t, t[p := File(content)], top)) <==> top <= p
  {
    if !(top <= p) {
      var u, v := t[p := File([])], t[p := File([SLASH])];
      assert u[p] != v[p] && p in u && p in v;
      assert !SameOutside(t, u, top) || !SameOutside(t, v, top);
    }
  }
}
