/** canonicalize_file_name: climbing through ".." undoes the resolution of a path. */
module CanonicalNames {
  import opened Paths
  import opened FileTrees

  /** Where a path starts: the root for an absolute one, else the working directory. */
  function Start(root: int, cwd: int, path: string): int {
    if path != "" && path[0] == '/' then root else cwd
  }

  function ParentOf(t: Tree, d: int): int
    requires IsDirectory(t, d)
  {
    if t[d].parent != NONE then t[d].parent else d
  }

  /** get_entry_name: the name of the first entry with a given inode. */
  method GetEntryName(fs: FileSystem, d: int, n: int) returns (name: string, found: bool)
    requires Closed(fs.tree) && IsDirectory(fs.tree, d) && n != NONE
    ensures n == d ==> found && name == "."
    ensures n != d && n == ParentOf(fs.tree, d) ==> found && name == ".."
    ensures n != d && n != ParentOf(fs.tree, d) ==>
      (found <==> n in fs.tree[d].children) && (found ==> exists i :: 0 <= i < |fs.tree[d].names| && fs.tree[d].names[i] == name && fs.tree[d].children[i] == n)
  {
    var offset := 0;
    var entry;
    name, entry := fs.Readdir(d, offset);
    while entry != NONE
      invariant offset >= 0 && (offset >= |fs.tree[d].names| + 2 ==> entry == NONE)
      invariant offset == 0 ==> name == "." && entry == d
      invariant offset == 1 ==> name == ".." && entry == ParentOf(fs.tree, d)
      invariant 2 <= offset < |fs.tree[d].names| + 2 ==> name == fs.tree[d].names[offset - 2] && entry == fs.tree[d].children[offset - 2]
      invariant offset > 0 ==> n != d
      invariant offset > 1 ==> n != ParentOf(fs.tree, d)
      invariant forall k :: 0 <= k < offset - 2 && k < |fs.tree[d].children| ==> fs.tree[d].children[k] != n
      decreases |fs.tree[d].names| + 2 - offset
    {
      if entry == n { return name, true; }
      offset := offset + 1;
      name, entry := fs.Readdir(d, offset);
    }
    found := false;
  }

  /** The last slash of a path, or -1. */
  method LastSlash(path: string) returns (k: int)
    ensures -1 <= k < |path| && (k >= 0 ==> path[k] == '/') && NoSlash(path[k + 1..])
  {
    k := |path| - 1;
    while k >= 0 && path[k] != '/'
      invariant -1 <= k < |path| && NoSlash(path[k + 1..])
    {
      k := k - 1;
    }
  }

  /** What the climb has so far: a path from node x down to the target. */
  ghost predicate Climbed(t: Tree, x: int, target: int, name: string, depth: map<int, nat>) {
    && Closed(t) && x in t && target in t && x in depth && target in depth
    && ResolveList(t, x, Components(name)) == target && depth[target] == depth[x] + |Components(name)|
    && (if name == "" then x == target else name[0] == '/' && !EndsInSlash(name) && t[x].Directory? && Components(name) != [])
  }

  /** The node and the directory it is looked up in: its own, or both the root. */
  ghost predicate Level(t: Tree, root: int, x: int, d: int) {
    IsDirectory(t, d) && if x == root then d == root else Listed(t, d, x)
  }

  /** The path that canonicalize_file_name returns for an existing node leads from the root to that very node. */
  method Canonicalize(fs: FileSystem, root: int, cwd: int, path: string, ghost depth: map<int, nat>) returns (r: string, ok: bool)
    requires WellFormed(fs.tree, root, depth) && IsDirectory(fs.tree, cwd)
    ensures ok <==> Resolve(fs.tree, Start(root, cwd, path), path) != NONE
    ensures ok ==> Resolve(fs.tree, root, r) == Resolve(fs.tree, Start(root, cwd, path), path)
    ensures ok ==> (r == "/" <==> Resolve(fs.tree, Start(root, cwd, path), path) == root)
    ensures ok ==> r != "" && r[0] == '/' && |Components(r)| == depth[Resolve(fs.tree, Start(root, cwd, path), path)]
  {
    hide ResolveFrom, ResolveList, Components, WellFormed, Level;
    RootDirectory(fs.tree, root, depth);
    var st := fs.ResolvePath(Start(root, cwd, path), path);
    if st == NONE { return "", false; }
    ok := true;
    var fd := Containing(fs, root, cwd, path, st, depth);
    r := Climb(fs, root, st, fd, depth);
  }

  lemma RootDirectory(t: Tree, root: int, depth: map<int, nat>)
    requires WellFormed(t, root, depth)
    ensures Closed(t) && IsDirectory(t, root) && depth.Keys == t.Keys
  {
  }

  /** The directory to look the node up in: its parent, or for a file what the path leads to without its last name. */
  method Containing(fs: FileSystem, root: int, cwd: int, path: string, st: int, ghost depth: map<int, nat>) returns (fd: int)
    requires WellFormed(fs.tree, root, depth) && IsDirectory(fs.tree, cwd) && path != ""
    requires Closed(fs.tree) && Start(root, cwd, path) in fs.tree && st == ResolveFrom(fs.tree, Start(root, cwd, path), path) != NONE
    ensures Level(fs.tree, root, st, fd)
  {
    hide ResolveFrom, Components, WellFormed, Level, Closed, Lookup, NoSlash, SlashFrom, EndsInSlash, IsDirectory, Resolve, ParentOf;
    RootDirectory(fs.tree, root, depth);
    if fs.tree[st].Directory? {
      UpFrom(fs.tree, root, depth, st);
      fd := fs.GetChildNode(st, "..");
    } else {
      // The path of a file does not end in a slash, so there are no slashes to drop from its end.
      ghost var start := Start(root, cwd, path);
      assert !EndsInSlash(path) by { NoFinalSlash(fs.tree, start, path); }
      var slash := LastSlash(path);
      FileDirectory(fs.tree, root, depth, start, path, slash);
      StartsHere(root, cwd, path);
      hide Start;
      if slash >= 0 {
        fd := fs.ResolvePath(Start(root, cwd, path), path[..slash + 1]);
      } else {
        fd := cwd;
      }
    }
  }

  lemma StartsHere(root: int, cwd: int, path: string)
    requires path != ""
    ensures path[0] != '/' ==> Start(root, cwd, path) == cwd
  {
  }

  lemma NoFinalSlash(t: Tree, n: int, path: string)
    requires Closed(t) && IsDirectory(t, n) && ResolveFrom(t, n, path) != NONE && !t[ResolveFrom(t, n, path)].Directory?
    ensures !EndsInSlash(path)
  {
    hide ResolveFrom, Closed, EndsInSlash;
    if EndsInSlash(path) { SlashDirectory(t, n, path); }
  }

  /** The loop: from directory to directory, each time with one name more in front. */
  method Climb(fs: FileSystem, root: int, node: int, containing: int, ghost depth: map<int, nat>) returns (r: string)
    requires WellFormed(fs.tree, root, depth) && node in fs.tree && Level(fs.tree, root, node, containing)
    requires Closed(fs.tree) && root in fs.tree && node in depth
    ensures Resolve(fs.tree, root, r) == node && (r == "/" <==> node == root)
    ensures r != "" && r[0] == '/' && |Components(r)| == depth[node]
  {
    hide ResolveFrom, ResolveList, Components, WellFormed, Level, Closed, Climbed;
    var t := fs.tree;
    var st, fd, name := node, containing, "";
    ClimbStart(t, root, st, depth);
    LevelDirectory(t, root, st, fd);
    while true
      invariant st in depth && IsDirectory(t, fd) && Level(t, root, st, fd) && Climbed(t, st, node, name, depth)
      decreases depth[st]
    {
      StNotNone(t, st, depth, node, name);
      var filename, found := GetEntryName(fs, fd, st);
      EntryFound(t, root, depth, st, fd);
      if filename == "." || filename == ".." {
        ClimbEnd(t, root, node, name, depth);
        r := if name == "" then "/" else name;
        return;
      }
      ClimbStep(t, root, depth, st, fd, node, filename, name);
      name := "/" + filename + name;
      st := fd;
      fd := fs.GetChildNode(fd, "..");
      UpFrom(t, root, depth, st);
    }
  }

  lemma LevelDirectory(t: Tree, root: int, x: int, d: int)
    requires Level(t, root, x, d)
    ensures IsDirectory(t, d)
  {
  }

  lemma StNotNone(t: Tree, x: int, depth: map<int, nat>, target: int, name: string)
    requires Climbed(t, x, target, name, depth)
    ensures x != NONE && x in t
  {
  }

  lemma UpFrom(t: Tree, root: int, depth: map<int, nat>, d: int)
    requires WellFormed(t, root, depth) && IsDirectory(t, d)
    ensures Closed(t) && Lookup(t, d, "..") == ParentOf(t, d) && Level(t, root, d, ParentOf(t, d)) && IsDirectory(t, ParentOf(t, d)) && d in depth
  {
  }

  lemma ClimbStart(t: Tree, root: int, x: int, depth: map<int, nat>)
    requires WellFormed(t, root, depth) && x in t
    ensures Climbed(t, x, x, "", depth)
  {
  }

  /** The entry that is found is "." exactly for the root. */
  lemma EntryFound(t: Tree, root: int, depth: map<int, nat>, x: int, d: int)
    requires WellFormed(t, root, depth) && Level(t, root, x, d)
    ensures IsDirectory(t, d) && (x != root ==> x != d && x != ParentOf(t, d) && x in t[d].children)
    ensures x == root ==> d == root
    ensures forall i :: 0 <= i < |t[d].names| ==> t[d].names[i] != "." && t[d].names[i] != ".."
  {
    if x != root {
      assert depth[x] == depth[d] + 1;
      if t[d].parent != NONE { assert d != root && Listed(t, t[d].parent, d); }
    }
  }

  /** One level up: the name of the node goes in front. */
  lemma ClimbStep(t: Tree, root: int, depth: map<int, nat>, x: int, d: int, target: int, filename: string, name: string)
    requires WellFormed(t, root, depth) && Level(t, root, x, d) && x != root && Climbed(t, x, target, name, depth)
    requires exists i :: 0 <= i < |t[d].names| && t[d].names[i] == filename && t[d].children[i] == x
    ensures Climbed(t, d, target, "/" + filename + name, depth) && d in depth && x in depth && depth[d] < depth[x]
  {
    var i :| 0 <= i < |t[d].names| && t[d].names[i] == filename && t[d].children[i] == x;
    assert GoodName(filename) && Listed(t, d, x);
    EntryLookup(t, root, depth, d, i);
    FrontName(filename, name);
    var longer := "/" + filename + name;
    hide WellFormed, Closed, Lookup, GoodName;
    ListStep(t, d, filename, Components(name));
  }

  lemma EntryLookup(t: Tree, root: int, depth: map<int, nat>, d: int, i: int)
    requires WellFormed(t, root, depth) && IsDirectory(t, d) && 0 <= i < |t[d].names|
    ensures Lookup(t, d, t[d].names[i]) == t[d].children[i]
  {
    assert GoodName(t[d].names[i]);
    var k := PlaceOf(t[d].names, t[d].names[i]);
    assert k == i;
  }

  lemma FrontName(filename: string, name: string)
    requires GoodName(filename) && (name == "" || name[0] == '/')
    ensures Components("/" + filename + name) == [filename] + Components(name)
    ensures !EndsInSlash(name) ==> !EndsInSlash("/" + filename + name)
  {
    FrontCharacters(filename, name);
    hide Components, NoSlash, EndsInSlash;
    assert filename != "" && NoSlash(filename);
    LeadingSlash(filename + name);
    OneName(filename);
    if name == "" {
      EmptyPath();
      assert [filename] + [] == [filename];
    } else {
      LeadingSlash(name[1..]);
      ComponentsAppend(filename, name[1..]);
    }
  }

  lemma FrontCharacters(filename: string, name: string)
    requires GoodName(filename) && (name == "" || name[0] == '/')
    ensures "/" + filename + name == "/" + (filename + name)
    ensures name == "" ==> filename + name == filename
    ensures name != "" ==> name == "/" + name[1..] && filename + name == filename + "/" + name[1..]
    ensures !EndsInSlash(name) ==> !EndsInSlash("/" + filename + name)
  {
    hide NoSlash;
    var k := |filename| - 1;
    assert filename[k] != '/' by { LastOfName(filename); }
    LastCharacter("/" + filename, name);
  }

  lemma LastOfName(filename: string)
    requires NoSlash(filename) && filename != ""
    ensures filename[|filename| - 1] != '/'
  {
  }

  lemma LeadingSlash(s: string)
    ensures Components("/" + s) == Components(s)
  {
    hide Components;
    ComponentsAppend("", s);
    EmptyPath();
    assert "" + "/" + s == "/" + s;
    assert [] + Components(s) == Components(s);
  }

  lemma LastCharacter(a: string, b: string)
    requires a != "" && a[|a| - 1] != '/'
    ensures EndsInSlash(a + b) <==> EndsInSlash(b)
  {
  }

  /** At the root the path is complete. */
  lemma ClimbEnd(t: Tree, root: int, target: int, name: string, depth: map<int, nat>)
    requires WellFormed(t, root, depth) && Climbed(t, root, target, name, depth)
    ensures var r := if name == "" then "/" else name;
            && Closed(t) && root in t && Resolve(t, root, r) == target && (r == "/" <==> target == root)
            && r[0] == '/' && target in depth && |Components(r)| == depth[target]
  {
    var r := if name == "" then "/" else name;
    SlashesOnly("/");
    ResolveComponents(t, root, r);
    NoNames(t, root);
    EmptyPath();
    hide ResolveFrom, ResolveList, Components;
  }

  lemma FirstIsNone(path: string)
    requires path != "" && NoSlash(path)
    ensures path[0] != '/'
  {
  }

  /** The directory part of a file's path leads to the directory that lists it. */
  lemma FileDirectory(t: Tree, root: int, depth: map<int, nat>, n: int, path: string, slash: int)
    requires WellFormed(t, root, depth) && IsDirectory(t, n) && path != "" && ResolveFrom(t, n, path) != NONE
    requires !t[ResolveFrom(t, n, path)].Directory? && -1 <= slash < |path| && (slash >= 0 ==> path[slash] == '/') && NoSlash(path[slash + 1..])
    ensures slash < 0 ==> path[0] != '/'
    ensures var d := if slash >= 0 then Resolve(t, n, path[..slash + 1]) else n;
            d != NONE && Level(t, root, ResolveFrom(t, n, path), d)
  {
    hide Closed, Lookup, Level, WellFormed, NoSlash, ResolveFrom;
    RootDirectory(t, root, depth);
    var name := path[slash + 1..];
    var x := ResolveFrom(t, n, path);
    NoFinalSlash(t, n, path);
    var d := n;
    if slash >= 0 {
      SplitLast(t, n, path, slash);
      d := ResolveFrom(t, n, path[..slash + 1]);
    } else {
      assert name == path;
      FirstIsNone(path);
      LastName(t, n, path);
    }
    assert name != "" && x == Lookup(t, d, name);
    FileListed(t, root, depth, d, name);
  }

  lemma FileListed(t: Tree, root: int, depth: map<int, nat>, d: int, name: string)
    requires WellFormed(t, root, depth) && d in t && Lookup(t, d, name) != NONE && !t[Lookup(t, d, name)].Directory?
    ensures Level(t, root, Lookup(t, d, name), d)
  {
    var i := PlaceOf(t[d].names, name);
    assert t[d].parent != NONE ==> IsDirectory(t, t[d].parent);
    assert Listed(t, d, Lookup(t, d, name));
  }

  /** A path that ends in a slash leads to a directory. */
  lemma SlashDirectory(t: Tree, n: int, path: string)
    requires Closed(t) && IsDirectory(t, n) && EndsInSlash(path) && ResolveFrom(t, n, path) != NONE
    ensures IsDirectory(t, ResolveFrom(t, n, path))
  {
    ResolveComponents(t, n, path);
    NoNames(t, n);
  }
}
