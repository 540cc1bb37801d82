/** What the operations of the file module do to the tree. */
module Files {
  import opened CBytes
  import opened Paths
  import opened Resolve
  import opened Stability
  import opened Answers

  /** get_file_info: the node that is described. */
  function InfoTarget(place: Place, t: Tree, rel: Bytes): Option<Path> {
    if rel == [] then None
    else match FullPathIn(place, t, rel, MAX_PATH_SIZE)
      case None => None
      case Some(s) => Stat(t, place.cwd, s)
  }

  /** The name get_file_info reports. */
  function BaseName(rel: Bytes): Bytes {
    Cut(rel[LastSlash(rel) + 1..], NAME_MAX)
  }

  predicate IsEmpty(t: Tree, d: Path) {
    forall p :: p in t ==> p == [] || Up(p) != d
  }

  /** rmdir for a directory, unlink for anything else: both remove the entry itself. */
  function RemoveEntry(t: Tree, e: Path, directory: bool): Option<Tree> {
    if e in t && e != [] && (if directory then t[e].Dir? && IsEmpty(t, e) else !t[e].Dir?)
    then Some(t - {e})
    else None
  }

  function DeleteFile(place: Place, t: Tree, rel: Bytes): Option<Tree> {
    if rel == [] then None
    else match FullPathIn(place, t, rel, MAX_PATH_SIZE)
      case None => None
      case Some(s) =>
        match Stat(t, place.cwd, s)
        case None => None
        case Some(p) =>
          match Entry(t, place.cwd, s)
          case None => None
          case Some(e) => RemoveEntry(t, e, p in t && t[p].Dir?)
  }

  function CreateDirectory(place: Place, t: Tree, rel: Bytes): Option<Tree> {
    if rel == [] then None
    else match FullPathIn(place, t, rel, MAX_PATH_SIZE)
      case None => None
      case Some(s) =>
        match Entry(t, place.cwd, s)
        case None => None
        case Some(e) => if e in t then None else Some(t[e := Dir])
  }

  /** get_full_path's answer is whole in the 2048-byte buffer. */
  ghost predicate FitsBuffer(place: Place, t: Tree, rel: Bytes) {
    FullPath(place, t, rel).Some? ==> |FullPath(place, t, rel).value| < MAX_PATH_SIZE
  }

  lemma EntryIsContained(place: Place, t: Tree, rel: Bytes, top: Path) returns (q: Path)
    requires Served(place, t) && RootPath(place, t) == Some(top) && top != []
    requires FitsBuffer(place, t, rel) && FullPath(place, t, rel).Some?
    ensures top <= q && q != []
    ensures FullPath(place, t, rel).value == Render(q)
    ensures Entry(t, place.cwd, Render(q)).Some? ==>
              Entry(t, place.cwd, Render(q)) == Some(q) && ValidName(Last(q)) && Up(q) in t && t[Up(q)].Dir?
  {
    hide Walk, Split, TempPath, LastSlash, FullPath, RootPath, WellFormed;
    if FallsBack(place, t, rel) {
      var d, name := FallbackShape(place, t, rel, top);
      q := d + [name];
      ResolveBelow(t, place.cwd, d, name);
    } else {
      q := ExistingShape(place, t, rel, top);
      ResolveNode(t, place.cwd, q);
    }
  }

  lemma RemovedNode(t: Tree, e: Path)
    requires WellFormed(t) && e in t && e != [] && (t[e].Dir? ==> IsEmpty(t, e))
    ensures WellFormed(t - {e})
  {
  }

  /** The entry that a file operation works on is at or below the root, as far as
      the buffer holds the root's own name. */
  lemma EntryIsBelow(place: Place, t: Tree, rel: Bytes, top: Path, e: Path)
    requires Served(place, t) && RootPath(place, t) == Some(top) && FullPath(place, t, rel).Some?
    requires Entry(t, place.cwd, FullPathIn(place, t, rel, MAX_PATH_SIZE).value) == Some(e)
    ensures |Render(top)| < MAX_PATH_SIZE ==> top <= e
    ensures e != [] && ValidName(Last(e)) && Up(e) in t && t[Up(e)].Dir?
  {
    hide Walk, Split, WellFormed, FullPath, RootPath;
    assert Up(e) + [Last(e)] == e;
    if top != [] {
      var d, name := AnswerShape(place, t, rel, top, MAX_PATH_SIZE);
      ResolveBelow(t, place.cwd, d, name);
    }
  }

  /** A deletion removes one node that has nothing under it; the tree stays a tree.
      The node is at or below the root, as far as the buffer holds the root's name. */
  lemma DeleteRemovesOne(place: Place, t: Tree, rel: Bytes, top: Path) returns (q: Path)
    requires Served(place, t) && RootPath(place, t) == Some(top) && DeleteFile(place, t, rel).Some?
    ensures q in t && IsEmpty(t, q)
    ensures DeleteFile(place, t, rel).value == t - {q} && Served(place, t - {q})
    ensures |Render(top)| < MAX_PATH_SIZE ==> top <= q && SameOutside(t, t - {q}, top)
  {
    hide Walk, Split, TempPath, LastSlash, FullPath, RootPath, Entry, Stat;
    q := Entry(t, place.cwd, FullPathIn(place, t, rel, MAX_PATH_SIZE).value).value;
    EntryIsBelow(place, t, rel, top, q);
    RemovedNode(t, q);
    if !t[q].Dir? {
      assert IsEmpty(t, q);
    }
  }

  /** A new directory is one new node, at or below the root as far as the buffer
      holds the root's name. */
  lemma MkdirAddsOne(place: Place, t: Tree, rel: Bytes, top: Path) returns (q: Path)
    requires Served(place, t) && RootPath(place, t) == Some(top) && CreateDirectory(place, t, rel).Some?
    ensures q !in t
    ensures CreateDirectory(place, t, rel).value == t[q := Dir] && Served(place, t[q := Dir])
    ensures |Render(top)| < MAX_PATH_SIZE ==> top <= q && SameOutside(t, t[q := Dir], top)
  {
    hide Walk, Split, TempPath, LastSlash, FullPath, RootPath, Entry;
    q := Entry(t, place.cwd, FullPathIn(place, t, rel, MAX_PATH_SIZE).value).value;
    EntryIsBelow(place, t, rel, top, q);
    AddedNode(t, q, Dir);
  }

  lemma NewNodeIsEmpty(t: Tree, q: Path, node: Node)
    requires WellFormed(t) && q !in t
    ensures IsEmpty(t[q := node], q) && t[q := node] - {q} == t
  {
    forall p | p in t[q := node] ensures p == [] || Up(p) != q {
      assert p in t || p == q;
    }
  }

  /** Deleting a directory just made gives back the tree there was. */
  lemma DeleteUndoesMkdir(place: Place, t: Tree, rel: Bytes, top: Path)
    requires Served(place, t) && RootPath(place, t) == Some(top) && top != []
    requires FitsBuffer(place, t, rel) && CreateDirectory(place, t, rel).Some?
    ensures DeleteFile(place, CreateDirectory(place, t, rel).value, rel) == Some(t)
  {
    hide Walk, Split, TempPath, LastSlash, FullPath, RootPath, Entry, Stat;
    var q := EntryIsContained(place, t, rel, top);
    MkdirLocates(place, t, rel, top, q);
    CreatedIsFound(place, t, rel, top, q, Dir);
    NewNodeIsEmpty(t, q, Dir);
  }

  lemma MkdirLocates(place: Place, t: Tree, rel: Bytes, top: Path, q: Path)
    requires Served(place, t) && RootPath(place, t) == Some(top) && top != []
    requires FitsBuffer(place, t, rel) && FullPath(place, t, rel) == Some(Render(q))
    requires Entry(t, place.cwd, Render(q)) == Some(q) && q !in t
    ensures Clean(place, t, rel) && Locate(place, t, rel) == Missing(q)
  {
    hide Split, TempPath, LastSlash, FullPath, RootPath, WellFormed;
    if FallsBack(place, t, rel) {
      var d, name := FallbackShape(place, t, rel, top);
      SameRender(t, place.cwd, d, name, q);
      ResolveHalves(t, place.cwd, TempPath(place.root, rel));
      var a := TempPath(place.root, rel)[..LastSlash(TempPath(place.root, rel))];
      OneStep(t, d, name, Paths.Resolve(t, place.cwd, a).links);
    } else {
      var p := ExistingShape(place, t, rel, top);
      ResolveNode(t, place.cwd, p);
      assert false;
    }
  }

  lemma SameRender(t: Tree, cwd: Path, d: Path, name: Bytes, q: Path)
    requires WellFormed(t) && d in t && !t[d].Link? && SLASH !in name
    requires Render(d + [name]) == Render(q) && Entry(t, cwd, Render(q)) == Some(q)
    ensures q == d + [name] && t[d].Dir? && ValidName(name)
  {
    hide Walk, Split, WellFormed, Absolute;
    ResolveBelow(t, cwd, d, name);
  }

  /** Deleting a file just put under a new name gives back the tree there was. */
  lemma DeleteUndoesPut(place: Place, t: Tree, rel: Bytes, top: Path, p: Path, content: Bytes)
    requires Served(place, t) && RootPath(place, t) == Some(top) && top != []
    requires Clean(place, t, rel) && Short(place, t, rel) && rel != []
    requires PutTarget(place, t, rel) == Some(p) && p !in t
    ensures DeleteFile(place, t[p := File(content)], rel) == Some(t)
  {
    hide Walk, Split, TempPath, LastSlash, FullPath, RootPath, Entry, Stat, Clean, PutTarget, Short;
    TargetLocated(place, t, rel, top, p);
    CreatedIsFound(place, t, rel, top, p, File(content));
    NewNodeIsEmpty(t, p, File(content));
  }
}
