/** What LIST, GET, DELETE, MKDIR and INFO do, told by where their paths lead. */
module Outcomes {
  import opened CBytes
  import opened Paths
  import opened Resolve
  import opened Stability
  import opened Files
  import opened Requests
  import opened Streams
  import opened Detours

  // Where a path leads

  lemma {:induction false} SlashesSkipped(n: nat, x: Bytes)
    requires x == [] || x[0] != SLASH
    ensures SkipSlashes(seq(n, _ => SLASH) + x) == x
  {
    var rel := seq(n, _ => SLASH) + x;
    if n == 0 {
      assert rel == x;
    } else {
      assert rel[1..] == seq(n - 1, _ => SLASH) + x;
      SlashesSkipped(n - 1, x);
    }
  }

  /** A path leads where its names lead from the root's own node, with the links
      that are left after resolving the root's name; slashes alone lead to the root. */
  lemma LeadsFromRoot(place: Place, t: Tree, top: Path, n: nat, x: Bytes) returns (l: nat)
    requires Served(place, t) && RootPath(place, t) == Some(top) && top != []
    requires (x == [] || x[0] != SLASH) && n + |x| < 1024
    ensures Locate(place, t, seq(n, _ => SLASH) + x) == if x == [] then Found(top, l) else Walk(t, top, Split(x), l)
    ensures l <= 40
  {
    hide Walk, Split, WellFormed, TempPath, SkipSlashes, Base;
    SlashesSkipped(n, x);
    RootIsLonger(place, t, top);
    TempParts(place.root, seq(n, _ => SLASH) + x);
    if x == [] {
      l := Paths.Resolve(t, place.cwd, place.root).links;
      LinksLeft(t, Start(place.cwd, place.root), Split(place.root), MAX_LINKS);
    } else {
      l := UnderRoot(t, place.cwd, place.root, x, top);
    }
  }

  /** The names fit the 2048-byte buffer. */
  ghost predicate Whole(place: Place, t: Tree, rel: Bytes) {
    && (FullPath(place, t, rel).Some? ==> |FullPath(place, t, rel).value| < MAX_PATH_SIZE)
    && (!Locate(place, t, rel).Fail? ==> |Render(Locate(place, t, rel).at)| < MAX_PATH_SIZE)
  }

  /** The path leads to a node, or to the place of one, at or below the root. */
  predicate LeadsBelow(w: Walked, top: Path) {
    !w.Fail? && top <= w.at
  }

  /** Without a link re-appended, the answer is the name of where the path leads; any
      other answer names nothing. */
  lemma AnswerIsWhereItLeads(place: Place, t: Tree, rel: Bytes, top: Path)
    requires Served(place, t) && RootPath(place, t) == Some(top) && top != []
    requires Clean(place, t, rel) && Whole(place, t, rel)
    ensures var w, s := Locate(place, t, rel), FullPathIn(place, t, rel, MAX_PATH_SIZE);
            if LeadsBelow(w, top) then s == Some(Render(w.at))
            else s.Some? ==> Stat(t, place.cwd, s.value) == None && Entry(t, place.cwd, s.value) == None
  {
    hide Walk, Split, WellFormed, TempPath, LastSlash, FullPath, Entry, Stat, Render, Clean;
    var w := Locate(place, t, rel);
    if !FallsBack(place, t, rel) {
      var q := ExistingShape(place, t, rel, top);
    } else if LeadsBelow(w, top) {
      assert w.Missing?;
      MissingIsFullPath(place, t, rel, top, w.at);
    } else if FullPath(place, t, rel).Some? {
      NothingNamed(place, t, rel, top);
    }
  }

  lemma NothingNamed(place: Place, t: Tree, rel: Bytes, top: Path)
    requires Served(place, t) && RootPath(place, t) == Some(top) && top != []
    requires Clean(place, t, rel) && Whole(place, t, rel) && FallsBack(place, t, rel)
    requires FullPath(place, t, rel).Some? && !LeadsBelow(Locate(place, t, rel), top)
    ensures var s := FullPath(place, t, rel).value;
            Stat(t, place.cwd, s) == None && Entry(t, place.cwd, s) == None
  {
    hide Walk, Split, WellFormed, TempPath, LastSlash, FullPath, Entry, Render, Clean, Paths.Resolve;
    var d, name := FallbackShape(place, t, rel, top);
    var l := FallbackLocates(place, t, rel, d, name);
    OneStep(t, d, name, l);
    OneStep(t, d, name, MAX_LINKS);
    ResolveBelow(t, place.cwd, d, name);
  }

  /** What the system calls make of the name of a node, or of a place for one. */
  lemma NamedNode(place: Place, t: Tree, rel: Bytes, top: Path)
    requires Served(place, t) && top != [] && LeadsBelow(Locate(place, t, rel), top)
    ensures var w := Locate(place, t, rel);
            && Entry(t, place.cwd, Render(w.at)) == Some(w.at)
            && (w.Found? ==> w.at in t && !t[w.at].Link? && Stat(t, place.cwd, Render(w.at)) == Some(w.at))
            && (w.Missing? ==> w.at !in t && Stat(t, place.cwd, Render(w.at)) == None)
  {
    hide Walk, Split, WellFormed, TempPath, Entry, Render;
    var w := Locate(place, t, rel);
    StartsSound(place, t, TempPath(place.root, rel));
    if w.Found? {
      ResolveNode(t, place.cwd, w.at);
    } else {
      assert Up(w.at) + [Last(w.at)] == w.at;
      OneStep(t, Up(w.at), Last(w.at), MAX_LINKS);
      ResolveBelow(t, place.cwd, Up(w.at), Last(w.at));
    }
  }

  // The commands

  /** The node that a non-empty path leads to at or below the root. */
  function NodeAt(place: Place, t: Tree, rel: Bytes, top: Path): (r: Option<Path>)
    ensures r.Some? ==> r.value in t && top <= r.value
  {
    var w := Locate(place, t, rel);
    if rel != [] && w.Found? && top <= w.at && w.at in t then Some(w.at) else None
  }

  /** MKDIR makes a directory exactly when the path leads to a missing entry at or
      below the root, and then exactly there. */
  lemma MkdirExactly(place: Place, t: Tree, rel: Bytes, top: Path)
    requires Served(place, t) && RootPath(place, t) == Some(top) && top != []
    requires Clean(place, t, rel) && Whole(place, t, rel)
    ensures CreateDirectory(place, t, rel) ==
            match Locate(place, t, rel)
            case Missing(p) => if rel != [] && top <= p then Some(t[p := Dir]) else None
            case _ => None
  {
    hide Walk, Split, FullPathIn, Entry, Stat, Render, Clean, Whole, Served, RootPath, Locate;
    AnswerIsWhereItLeads(place, t, rel, top);
    if LeadsBelow(Locate(place, t, rel), top) {
      NamedNode(place, t, rel, top);
    }
  }

  predicate NothingIn(t: Tree, p: Path) {
    forall q :: q in t && q != [] ==> q[..|q| - 1] != p
  }

  /** DELETE removes exactly the file, or the directory with nothing in it, that the
      path leads to at or below the root, and refuses everything else. */
  lemma DeleteExactly(place: Place, t: Tree, rel: Bytes, top: Path)
    requires Served(place, t) && RootPath(place, t) == Some(top) && top != []
    requires Clean(place, t, rel) && Whole(place, t, rel)
    ensures DeleteFile(place, t, rel) ==
            var p := NodeAt(place, t, rel, top);
            if p.Some? && (t[p.value].File? || NothingIn(t, p.value)) then Some(t - {p.value}) else None
  {
    hide Walk, Split, FullPathIn, Entry, Stat, Render, Clean, Whole, Served, RootPath, Locate;
    AnswerIsWhereItLeads(place, t, rel, top);
    if LeadsBelow(Locate(place, t, rel), top) {
      NamedNode(place, t, rel, top);
    }
  }

  /** When the answer is the name of a link, DELETE removes the link and never what
      it leads to: if that is there and is no directory. */
  lemma DeleteOfLink(place: Place, t: Tree, rel: Bytes, d: Path, name: Bytes)
    requires WellFormed(t) && rel != [] && d + [name] in t && t[d + [name]].Link?
    requires FullPath(place, t, rel) == Some(Render(d + [name])) && |Render(d + [name])| < MAX_PATH_SIZE
    ensures DeleteFile(place, t, rel) ==
            var p := NodeOf(t, d, name);
            if p.None? || (p.value in t && t[p.value].Dir?) then None else Some(t - {d + [name]})
  {
    hide Walk, Split, FullPath, Entry, Render, WellFormed, Paths.Resolve;
    EntryOfDirectory(t, d, name);
    assert SLASH !in name;
    ResolveBelow(t, place.cwd, d, name);
  }

  /** INFO describes exactly the node that the path leads to at or below the root. */
  lemma InfoExactly(place: Place, t: Tree, rel: Bytes, top: Path)
    requires Served(place, t) && RootPath(place, t) == Some(top) && top != []
    requires Clean(place, t, rel) && Whole(place, t, rel)
    ensures FileInfo(place, t, rel) ==
            var p := NodeAt(place, t, rel, top);
            if p.None? then None else Some(Info(BaseName(rel), p.value, t[p.value]))
  {
    hide Walk, Split, FullPathIn, Entry, Stat, Render, Clean, Whole, Served, RootPath, Locate, BaseName;
    AnswerIsWhereItLeads(place, t, rel, top);
    if LeadsBelow(Locate(place, t, rel), top) {
      NamedNode(place, t, rel, top);
    }
  }

  /** The name reported is what follows the last slash of the request's path, cut to
      255 bytes. */
  lemma NameReported(front: Bytes, name: Bytes)
    requires SLASH !in name
    ensures BaseName(front + [SLASH] + name) == Cut(name, 255) && BaseName(name) == Cut(name, 255)
  {
    HalvesAre(front + [SLASH] + name, front, name);
    LastSlashIs(name, -1);
    assert name[0..] == name;
  }

  /** GET serves exactly the file that the path leads to at or below the root. */
  lemma GetExactly(env: Env, t: Tree, rel: Bytes, top: Path)
    requires Served(env.place, t) && RootPath(env.place, t) == Some(top) && top != []
    requires Clean(env.place, t, rel) && Short(env.place, t, rel)
    ensures GetReply(env, t, rel) ==
            var p := NodeAt(env.place, t, rel, top);
            if p.Some? && t[p.value].File?
            then (true, Header(RESP_OK, |t[p.value].content|) + t[p.value].content)
            else (true, Message(RESP_ERROR, ReadFailed))
  {
    hide Walk, Split, FullPath, FileInfo, Render, Clean, Served, RootPath, Locate, GetReply, Message, Header, BaseName;
    InfoExactly(env.place, t, rel, top);
    GetAnswersFile(env, t, rel);
  }

  /** LIST succeeds exactly when the path leads to a directory at or below the root,
      and then lists that directory's entries. */
  lemma ListExactly(env: Env, t: Tree, rel: Bytes, top: Path)
    requires Served(env.place, t) && RootPath(env.place, t) == Some(top) && top != []
    requires Clean(env.place, t, rel) && Whole(env.place, t, rel)
    ensures Listing(env, t, rel) ==
            var p := NodeAt(env.place, t, rel, top);
            if p.Some? && t[p.value].Dir?
            then Some(ListEntries(t, env.place.cwd, Render(p.value), env.readdir(t, p.value), MAX_ENTRIES))
            else None
  {
    hide Walk, Split, FullPathIn, Entry, Stat, Render, Clean, Whole, Served, RootPath, Locate, ListEntries;
    AnswerIsWhereItLeads(env.place, t, rel, top);
    if LeadsBelow(Locate(env.place, t, rel), top) {
      NamedNode(env.place, t, rel, top);
    }
  }

  lemma {:induction false} PackedAt(env: Env, infos: seq<Info>, i: nat)
    requires i < |infos|
    ensures PackAll(env, infos)[280 * i..280 * (i + 1)] == env.pack(infos[i])
  {
    var n: nat := |infos| - 1;
    var front := PackAll(env, infos[..n]);
    if i < n {
      PackedAt(env, infos[..n], i);
      assert PackAll(env, infos)[280 * i..280 * (i + 1)] == front[280 * i..280 * (i + 1)];
    }
  }

  /** The record of one entry: its name, and the node it is or, when it is a link,
      leads to. */
  predicate Records(env: Env, t: Tree, d: Path, name: Bytes, record: Bytes) {
    match NodeOf(t, d, name)
    case Some(p) => p in t && record == env.pack(Info(name, p, t[p]))
    case None => false
  }

  /** One record of 280 bytes for each of the first 100 entries that can be described,
      in reading order. */
  ghost predicate Lists(env: Env, t: Tree, d: Path, body: Bytes) {
    var shown := Visible(t, d, env.readdir(t, d));
    && |body| == 280 * Min(|shown|, 100)
    && forall i :: 0 <= i < Min(|shown|, 100) ==>
         Records(env, t, d, shown[i], body[280 * i..280 * (i + 1)])
  }

  lemma PackedListing(env: Env, t: Tree, d: Path)
    requires WellFormed(t) && d in t && t[d].Dir? && NamesFit(d, env.readdir(t, d))
    ensures Lists(env, t, d, PackAll(env, ListEntries(t, env.place.cwd, Render(d), env.readdir(t, d), MAX_ENTRIES)))
  {
    hide WellFormed, NamesFit, ListEntries, Visible, NodeOf, Render, PackAll;
    var r := ListEntries(t, env.place.cwd, Render(d), env.readdir(t, d), MAX_ENTRIES);
    ListsTheEntries(t, env.place.cwd, d, env.readdir(t, d), MAX_ENTRIES);
    forall i | 0 <= i < |r| ensures PackAll(env, r)[280 * i..280 * (i + 1)] == env.pack(r[i]) {
      PackedAt(env, r, i);
    }
  }
}
