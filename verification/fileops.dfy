/** The file module's code: pathnames built in place in fixed buffers. */
module FileOps {
  import opened CBytes
  import opened Paths
  import opened Resolve
  import opened Files
  import opened Requests

  // C strings in buffers

  /** strncpy over all but the last byte, which becomes the terminator. */
  method CopyString(dst: array<Byte>, src: Bytes)
    requires dst.Length > 0 && NUL !in src
    modifies dst
    ensures CStr(dst[..]) == Cut(src, dst.Length - 1)
    ensures forall i :: |Cut(src, dst.Length - 1)| <= i < dst.Length ==> dst[i] == NUL
  {
    var n := dst.Length - 1;
    var i := 0;
    while i < n
      invariant i <= n
      invariant forall j :: 0 <= j < i ==> dst[j] == if j < |src| then src[j] else NUL
    {
      dst[i] := if i < |src| then src[i] else NUL;
      i := i + 1;
    }
    dst[n] := NUL;
    var s := Cut(src, n);
    assert dst[..|s|] == s;
    IndexOfUnique(dst[..], NUL, |s|);
  }

  /** strncat(dst, src, sizeof(dst) - strlen(dst) - 1) */
  method AppendString(dst: array<Byte>, src: Bytes)
    requires NUL in dst[..] && NUL !in src
    modifies dst
    ensures NUL in dst[..]
    ensures CStr(dst[..]) == Cut(old(CStr(dst[..])) + src, dst.Length - 1)
  {
    ghost var start := CStr(dst[..]);
    var len := IndexOf(dst[..], NUL);
    assert dst[..][..len] == start;
    var n := Min(|src|, dst.Length - len - 1);
    var i := 0;
    while i < n
      invariant i <= n
      invariant forall j :: 0 <= j < len ==> dst[j] == start[j]
      invariant forall j :: 0 <= j < i ==> dst[len + j] == src[j]
    {
      dst[len + i] := src[i];
      i := i + 1;
    }
    dst[len + n] := NUL;
    var s := Cut(start + src, dst.Length - 1);
    assert |s| == len + n;
    assert dst[..][..len + n] == s;
    assert NUL !in s;
    IndexOfUnique(dst[..], NUL, len + n);
  }

  lemma {:induction false} RenderHasNoNul(p: Path)
    requires ValidNames(p)
    ensures NUL !in Render(p) && NUL !in Absolute(p)
  {
    if p != [] {
      assert forall i :: 0 <= i < |Up(p)| ==> Up(p)[i] == p[i];
      RenderHasNoNul(Up(p));
    }
  }

  lemma RealpathHasNoNul(t: Tree, cwd: Path, s: Bytes)
    requires WellFormed(t) && Realpath(t, cwd, s).Some?
    ensures NUL !in Render(Realpath(t, cwd, s).value)
  {
    hide Split, Walk;
    if s != [] {
      WalkSound(t, Start(cwd, s), Split(s), MAX_LINKS);
    }
    NodeNamesAreValid(t, Realpath(t, cwd, s).value);
    RenderHasNoNul(Realpath(t, cwd, s).value);
  }

  /** The served file system. */
  class Disk {
    const place: Place
    var tree: Tree

    constructor (place: Place, tree: Tree)
      ensures this.place == place && this.tree == tree
    {
      this.place, this.tree := place, tree;
    }

    ghost predicate Valid() reads this {
      Served(place, tree) && NUL !in place.root
    }

    /** The first half of get_full_path: root, slash and path in one buffer. */
    method BuildPath(relative: Bytes, temp: array<Byte>)
      requires Valid() && NUL !in relative && temp.Length == MAX_PATH_SIZE
      modifies temp
      ensures NUL in temp[..] && CStr(temp[..]) == TempPath(place.root, relative)
    {
      CopyString(temp, place.root);
      assert temp[MAX_PATH_SIZE - 1] == NUL;
      var rel := 0;
      while rel < |relative| && relative[rel] == SLASH
        invariant rel <= |relative| && SkipSlashes(relative) == SkipSlashes(relative[rel..])
      {
        rel := rel + 1;
      }
      if rel < |relative| {
        var start := CStr(temp[..]);
        if start != [] && start[|start| - 1] != SLASH {
          AppendString(temp, [SLASH]);
        }
        AppendString(temp, relative[rel..]);
      }
    }

    /** The second half: realpath, or the parent's realpath and the last name. */
    method ResolveInto(temp: Bytes, resolved: array<Byte>) returns (ok: bool)
      requires Valid() && NUL !in temp && |temp| < MAX_PATH_SIZE && resolved.Length == PATH_MAX
      modifies resolved
      ensures ok <==> Resolved(place, tree, temp).Some?
      ensures ok ==> CStr(resolved[..]) == Resolved(place, tree, temp).value
    {
      hide Walk, Split, Absolute, WellFormed;
      var node := Realpath(tree, place.cwd, temp);
      if node.Some? {
        RealpathHasNoNul(tree, place.cwd, temp);
        CopyString(resolved, Render(node.value));
        return true;
      }
      var slash := LastSlash(temp);
      if slash < 0 {
        return false;
      }
      var parent, name := temp[..slash], temp[slash + 1..];
      node := Realpath(tree, place.cwd, parent);
      if node.None? {
        return false;
      }
      RealpathHasNoNul(tree, place.cwd, parent);
      CopyString(resolved, Render(node.value));
      assert resolved[PATH_MAX - 1] == NUL;
      AppendString(resolved, [SLASH]);
      AppendString(resolved, name);
      return true;
    }

    method GetFullPath(relative: Bytes, out: array<Byte>) returns (rc: int)
      requires Valid() && NUL !in relative && out.Length > 0
      modifies out
      ensures rc == if FullPath(place, tree, relative).Some? then 0 else -1
      ensures rc == 0 ==> FullPathIn(place, tree, relative, out.Length) == Some(CStr(out[..]))
    {
      hide Walk, Split, Absolute, WellFormed, TempPath, Resolved;
      var temp := new Byte[MAX_PATH_SIZE];
      BuildPath(relative, temp);
      var resolved := new Byte[PATH_MAX];
      var ok := ResolveInto(CStr(temp[..]), resolved);
      if !ok {
        return -1;
      }
      var root := Realpath(tree, place.cwd, place.root);
      if root.None? {
        return -1;
      }
      if !BelowRoot(CStr(resolved[..]), Render(root.value)) {
        return -1;
      }
      CopyString(out, CStr(resolved[..]));
      return 0;
    }

    /** fwrite at the end of an open file */
    method Append(p: Path, data: Bytes)
      requires p in tree && tree[p].File?
      modifies this`tree
      ensures tree == old(tree)[p := File(old(tree)[p].content + data)]
    {
      tree := tree[p := File(tree[p].content + data)];
    }

    method GetFileInfo(path: Bytes) returns (info: Option<Info>)
      requires Valid() && NUL !in path
      ensures info == FileInfo(place, tree, path)
    {
      hide Walk, Split, FullPath, BaseName, Stat;
      if path == [] {
        return None;
      }
      var full := new Byte[MAX_PATH_SIZE];
      var rc := GetFullPath(path, full);
      if rc != 0 {
        return None;
      }
      var node := Stat(tree, place.cwd, CStr(full[..]));
      if node.None? || node.value !in tree {
        return None;
      }
      var name := LastComponent(path);
      return Some(Info(name, node.value, tree[node.value]));
    }

    /** strrchr and strncpy into the name field. */
    method LastComponent(path: Bytes) returns (name: Bytes)
      ensures name == BaseName(path)
    {
      var slash := LastSlash(path);
      return Cut(path[slash + 1..], NAME_MAX);
    }

    method DeleteFile(path: Bytes) returns (rc: int)
      requires Valid() && NUL !in path
      modifies this`tree
      ensures match Files.DeleteFile(place, old(tree), path)
              case Some(u) => rc == 0 && tree == u
              case None => rc == -1 && tree == old(tree)
    {
      hide Walk, Split, FullPath, Entry, Stat;
      if path == [] {
        return -1;
      }
      var full := new Byte[MAX_PATH_SIZE];
      rc := GetFullPath(path, full);
      if rc != 0 {
        return -1;
      }
      var node := Stat(tree, place.cwd, CStr(full[..]));
      var entry := Entry(tree, place.cwd, CStr(full[..]));
      if node.None? || entry.None? {
        return -1;
      }
      var after := RemoveEntry(tree, entry.value, node.value in tree && tree[node.value].Dir?);
      if after.None? {
        return -1;
      }
      tree := after.value;
      return 0;
    }

    method CreateDirectory(path: Bytes) returns (rc: int)
      requires Valid() && NUL !in path
      modifies this`tree
      ensures match Files.CreateDirectory(place, old(tree), path)
              case Some(u) => rc == 0 && tree == u
              case None => rc == -1 && tree == old(tree)
    {
      hide Walk, Split, FullPath, Entry;
      if path == [] {
        return -1;
      }
      var full := new Byte[MAX_PATH_SIZE];
      rc := GetFullPath(path, full);
      if rc != 0 {
        return -1;
      }
      var entry := Entry(tree, place.cwd, CStr(full[..]));
      if entry.None? || entry.value in tree {
        return -1;
      }
      tree := tree[entry.value := Dir];
      return 0;
    }

    method ListDirectory(env: Env, path: Bytes) returns (entries: Option<seq<Info>>)
      requires Valid() && NUL !in path && env.place == place
      ensures entries == Listing(env, tree, path)
    {
      hide Walk, Split, FullPath, Stat;
      if path == [] {
        return None;
      }
      var full := new Byte[MAX_PATH_SIZE];
      var rc := GetFullPath(path, full);
      if rc != 0 {
        return None;
      }
      var dir := CStr(full[..]);
      var node := Stat(tree, place.cwd, dir);
      if node.None? || node.value !in tree || !tree[node.value].Dir? {
        return None;
      }
      var found := ReadEntries(dir, env.readdir(tree, node.value));
      return Some(found);
    }

    /** The loop over readdir. */
    method ReadEntries(dir: Bytes, names: seq<Bytes>) returns (entries: seq<Info>)
      ensures entries == ListEntries(tree, place.cwd, dir, names, MAX_ENTRIES)
    {
      hide Stat;
      entries := [];
      var unread := names;
      while unread != [] && |entries| < MAX_ENTRIES
        invariant |entries| <= MAX_ENTRIES
        invariant ListEntries(tree, place.cwd, dir, names, MAX_ENTRIES) ==
                  entries + ListEntries(tree, place.cwd, dir, unread, MAX_ENTRIES - |entries|)
        decreases |unread|
      {
        var name := unread[0];
        unread := unread[1..];
        if name == [DOT] || name == DOTDOT {
          continue;
        }
        var entry := Stat(tree, place.cwd, Cut(dir + [SLASH] + name, MAX_PATH_SIZE - 1));
        if entry.None? || entry.value !in tree {
          continue;
        }
        entries := entries + [Info(Cut(name, NAME_MAX), entry.value, tree[entry.value])];
      }
      assert ListEntries(tree, place.cwd, dir, unread, MAX_ENTRIES - |entries|) == [];
    }
  }
}
