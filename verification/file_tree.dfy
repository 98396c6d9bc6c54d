/** Inodes, directories and the resolution of paths. */
module FileTrees {
  import opened Paths

  const NONE: int := -1

  /** A file, or a directory with its parent (NONE for the root) and its entries in the order they were added. */
  datatype Node = File(mode: int, bytes: string) | Directory(mode: int, parent: int, names: seq<string>, children: seq<int>)

  type Tree = map<int, Node>

  predicate IsDirectory(t: Tree, n: int) { n in t && t[n].Directory? }

  /** The first place of a name in a directory, or -1. */
  function PlaceOf(names: seq<string>, name: string): (i: int)
    ensures -1 <= i < |names| && (i >= 0 ==> names[i] == name) && (i >= 0 <==> name in names)
    ensures forall k :: 0 <= k < i ==> names[k] != name
  {
    if names == [] then -1
    else if names[0] == name then 0
    else
      var i := PlaceOf(names[1..], name);
      if i < 0 then -1 else i + 1
  }

  /** Every directory's entries and parent are there. */
  ghost predicate Closed(t: Tree) {
    && NONE !in t
    && (forall d :: IsDirectory(t, d) ==> |t[d].names| == |t[d].children| && (t[d].parent == NONE || IsDirectory(t, t[d].parent)))
    && (forall d, i :: IsDirectory(t, d) && 0 <= i < |t[d].children| ==> t[d].children[i] in t)
  }

  /** getChildNode: NONE when there is no such entry, or no directory. */
  function Lookup(t: Tree, n: int, name: string): (m: int)
    requires Closed(t)
    ensures m != NONE ==> m in t && IsDirectory(t, n)
  {
    if !IsDirectory(t, n) then NONE
    else if name == "." then n
    else if name == ".." then (if t[n].parent != NONE then t[n].parent else n)
    else
      var i := PlaceOf(t[n].names, name);
      if i < 0 then NONE else t[n].children[i]
  }

  /** resolvePath behind its test for the empty path: name by name, all but the last of them directories. */
  function ResolveFrom(t: Tree, n: int, path: string): (m: int)
    requires Closed(t) && n in t
    ensures m != NONE ==> m in t
    decreases |path|
  {
    var k := SlashFrom(path, 0);
    if k == |path| then (if path == "" then n else Lookup(t, n, path))
    else if k == 0 then ResolveFrom(t, n, path[1..])
    else
      var m := Lookup(t, n, path[..k]);
      if m == NONE || !t[m].Directory? then NONE else ResolveFrom(t, m, path[k + 1..])
  }

  function Resolve(t: Tree, n: int, path: string): (m: int)
    requires Closed(t) && n in t
    ensures m != NONE ==> m in t
  {
    if path == "" then NONE else ResolveFrom(t, n, path)
  }

  /** Resolution of a list of names. */
  function ResolveList(t: Tree, n: int, names: seq<string>): (m: int)
    requires Closed(t) && n in t
    ensures m != NONE ==> m in t
    decreases |names|
  {
    if names == [] then n
    else
      var m := Lookup(t, n, names[0]);
      if |names| == 1 then m
      else if m == NONE || !t[m].Directory? then NONE
      else ResolveList(t, m, names[1..])
  }

  predicate EndsInSlash(path: string) { path != "" && path[|path| - 1] == '/' }

  /** What a component list leads to, for a path that ends in a slash or does not. */
  function Ending(t: Tree, m: int, names: seq<string>, slash: bool): int
    requires m != NONE ==> m in t
  {
    if names != [] && slash && m != NONE && !t[m].Directory? then NONE else m
  }

  /** Only the components of a path count, and whether it ends in a slash: then it has to lead to a directory. */
  lemma {:induction false} ResolveComponents(t: Tree, n: int, path: string)
    requires Closed(t) && n in t
    ensures ResolveFrom(t, n, path) == Ending(t, ResolveList(t, n, Components(path)), Components(path), EndsInSlash(path))
    decreases |path|
  {
    var k := SlashFrom(path, 0);
    FirstComponent(path, k);
    EmptyPath();
    if k == |path| {
      assert path[..k] == path;
      if path != "" { ListStep(t, n, path, []); }
    } else {
      var rest := path[k + 1..];
      var names := Components(rest);
      RestSlash(path, k);
      if k == 0 {
        ResolveComponents(t, n, rest);
        assert [] + names == names;
        if names == [] { NoComponents(rest); }
      } else {
        var m := Lookup(t, n, path[..k]);
        ListStep(t, n, path[..k], names);
        if names == [] { NoComponents(rest); }
        hide Components, SlashFrom, Lookup, Closed, ResolveList;
        if m != NONE { ResolveComponents(t, m, rest); }
        NoNames(t, m);
      }
    }
  }

  lemma NoNames(t: Tree, m: int)
    requires Closed(t)
    ensures m in t ==> ResolveList(t, m, []) == m
  {
  }

  lemma ListStep(t: Tree, n: int, name: string, names: seq<string>)
    requires Closed(t) && n in t
    ensures var m := Lookup(t, n, name);
            ResolveList(t, n, [name] + names) ==
            if names == [] then m else if m == NONE || !t[m].Directory? then NONE else ResolveList(t, m, names)
  {
    assert ([name] + names)[1..] == names;
    hide Lookup, Closed;
  }

  lemma RestSlash(path: string, k: nat)
    requires k < |path| && path[k] == '/'
    ensures EndsInSlash(path) <==> path[k + 1..] == "" || EndsInSlash(path[k + 1..])
    ensures AllSlashes(path[k + 1..]) ==> EndsInSlash(path)
  {
  }

  /** A path with a slash leads to what its last name leads to from where the rest leads. */
  lemma {:induction false} SplitLast(t: Tree, n: int, path: string, k: nat)
    requires Closed(t) && n in t && k < |path| && path[k] == '/' && NoSlash(path[k + 1..]) && ResolveFrom(t, n, path) != NONE
    ensures var d := ResolveFrom(t, n, path[..k + 1]);
            && d != NONE
            && ResolveFrom(t, n, path) == if path[k + 1..] == "" then d else Lookup(t, d, path[k + 1..])
    decreases |path|
  {
    var j := SlashFrom(path, 0);
    var head, rest := path[..k + 1], path[j + 1..];
    SameSlash(path, k);
    ResolveStep(t, n, path, j);
    ResolveStep(t, n, head, j);
    assert head[..j] == path[..j];
    var m := if j == 0 then n else Lookup(t, n, path[..j]);
    hide Closed, Lookup, ResolveFrom, SlashFrom, NoSlash;
    if j == k {
      assert head[j + 1..] == "" && rest == path[k + 1..];
      LastName(t, m, rest);
      LastName(t, m, "");
    } else {
      HeadSlices(path, j, k);
      SplitLast(t, m, rest, k - j - 1);
    }
  }

  lemma HeadSlices(path: string, j: nat, k: nat)
    requires j < k < |path|
    ensures var head, rest := path[..k + 1], path[j + 1..];
            rest[k - j - 1] == path[k] && rest[k - j..] == path[k + 1..] && rest[..k - j] == head[j + 1..]
  {
  }

  lemma ResolveStep(t: Tree, n: int, path: string, k: nat)
    requires Closed(t) && n in t && k == SlashFrom(path, 0) < |path|
    ensures ResolveFrom(t, n, path) ==
            if k == 0 then ResolveFrom(t, n, path[k + 1..])
            else
              var m := Lookup(t, n, path[..k]);
              if m == NONE || !t[m].Directory? then NONE else ResolveFrom(t, m, path[k + 1..])
  {
    hide Closed, Lookup, SlashFrom;
  }

  lemma SameSlash(path: string, k: nat)
    requires k < |path| && path[k] == '/'
    ensures SlashFrom(path[..k + 1], 0) == SlashFrom(path, 0) <= k
  {
    var i, j := SlashFrom(path[..k + 1], 0), SlashFrom(path, 0);
    assert forall l :: 0 <= l <= k ==> path[..k + 1][l] == path[l];
  }

  lemma LastName(t: Tree, n: int, name: string)
    requires Closed(t) && n in t && NoSlash(name)
    ensures ResolveFrom(t, n, name) == if name == "" then n else Lookup(t, n, name)
  {
    var k := SlashFrom(name, 0);
    assert k == |name|;
  }

  // ---------- Trees in which every node has one place ----------

  predicate GoodName(s: string) { s != "" && s != "." && s != ".." && NoSlash(s) }

  /** Node c is an entry of directory d. */
  predicate Listed(t: Tree, d: int, c: int) { IsDirectory(t, d) && c in t[d].children }

  /**
    One root, good and distinct names in every directory, every other node an entry of exactly one directory, one level
    deeper than it.
   */
  ghost predicate WellFormed(t: Tree, root: int, depth: map<int, nat>) {
    && Closed(t) && IsDirectory(t, root) && t[root].parent == NONE && depth.Keys == t.Keys && depth[root] == 0
    && (forall d, i :: IsDirectory(t, d) && 0 <= i < |t[d].names| ==> GoodName(t[d].names[i]))
    && (forall d, i, k :: IsDirectory(t, d) && 0 <= i < k < |t[d].names| ==> t[d].names[i] != t[d].names[k])
    && (forall d, c :: Listed(t, d, c) ==> c in t && depth[c] == depth[d] + 1 && (t[c].Directory? ==> t[c].parent == d))
    && (forall n :: IsDirectory(t, n) && n != root ==> Listed(t, t[n].parent, n))
  }

  /** From t to t' name `name` of directory d leads to `child` if it led nowhere; no other name leads elsewhere. */
  ghost predicate NameAdded(t: Tree, t': Tree, d: int, name: string, child: int) {
    && Closed(t) && Closed(t') && t'.Keys == t.Keys
    && forall n, m :: Lookup(t', n, m) == if n == d && m == name && Lookup(t, d, name) == NONE then child else Lookup(t, n, m)
  }

  lemma ChildAdded(t: Tree, d: int, name: string, child: int)
    requires Closed(t) && IsDirectory(t, d) && child in t && name != "." && name != ".."
    ensures NameAdded(t, t[d := t[d].(names := t[d].names + [name], children := t[d].children + [child])], d, name, child)
  {
    var t' := t[d := t[d].(names := t[d].names + [name], children := t[d].children + [child])];
    assert Closed(t');
    forall n, m ensures Lookup(t', n, m) == if n == d && m == name && Lookup(t, d, name) == NONE then child else Lookup(t, n, m) {
      if n == d { PlaceAppended(t[d].names, name, m); }
    }
  }

  lemma {:induction false} PlaceAppended(names: seq<string>, name: string, m: string)
    ensures PlaceOf(names + [name], m) == if m !in names && m == name then |names| else PlaceOf(names, m)
  {
    if names != [] {
      assert (names + [name])[1..] == names[1..] + [name];
      PlaceAppended(names[1..], name, m);
    }
  }

  class FileSystem {
    var tree: Tree
    var nextIno: int

    constructor ()
      ensures tree == map[] && nextIno == 0
    {
      tree, nextIno := map[], 0;
    }

    /** Inodes are numbered in the order they are created. */
    ghost predicate Numbered()
      reads this
    {
      nextIno >= 0 && forall n :: n in tree ==> 0 <= n < nextIno
    }

    /** Vnode::Vnode: every new node gets a number of its own. */
    method NewNode(node: Node) returns (ino: int)
      requires Numbered()
      modifies this
      ensures Numbered() && ino !in old(tree) && ino != NONE && tree == old(tree)[ino := node]
    {
      ino := nextIno;
      nextIno := nextIno + 1;
      tree := tree[ino := node];
    }

    /**
      addChildNode: one more entry at the end.  A name that leads nowhere leads to the child from then on, a name that is
      taken goes on leading where it did, and so does every other name of every directory.
     */
    method AddChildNode(d: int, name: string, child: int)
      requires IsDirectory(tree, d) && |tree[d].names| == |tree[d].children|
      modifies this`tree
      ensures tree == old(tree)[d := old(tree[d]).(names := old(tree[d]).names + [name], children := old(tree[d]).children + [child])]
      ensures old(Closed(tree)) && child in old(tree) && name != "." && name != ".." ==> NameAdded(old(tree), tree, d, name, child)
    {
      if Closed(tree) && child in tree && name != "." && name != ".." { ChildAdded(tree, d, name, child); }
      tree := tree[d := tree[d].(names := tree[d].names + [name], children := tree[d].children + [child])];
    }

    /** getChildNode: the first entry of that name. */
    method GetChildNode(n: int, name: string) returns (m: int)
      requires Closed(tree) && n in tree
      ensures m == Lookup(tree, n, name)
    {
      if !tree[n].Directory? { return NONE; }
      if name == "." { return n; }
      if name == ".." { return if tree[n].parent != NONE then tree[n].parent else n; }
      var names := tree[n].names;
      for i := 0 to |names|
        invariant forall k :: 0 <= k < i ==> names[k] != name
      {
        if name == names[i] {
          return tree[n].children[i];
        }
      }
      return NONE;
    }

    /** resolvePath: cuts a copy of the path at each slash. */
    method ResolvePath(n: int, path: string) returns (m: int)
      requires Closed(tree) && n in tree
      ensures m == Resolve(tree, n, path)
    {
      if path == "" { return NONE; }
      m := n;
      var rest := path;
      var slash := Strchr(rest);
      while slash < |rest|
        invariant m in tree && ResolveFrom(tree, m, rest) == ResolveFrom(tree, n, path) && slash == SlashFrom(rest, 0)
        decreases |rest|
      {
        var name := rest[..slash];
        if name != "" {
          m := GetChildNode(m, name);
          if m == NONE { return; }
          if !tree[m].Directory? { return NONE; }
        }
        rest := rest[slash + 1..];
        slash := Strchr(rest);
      }
      if rest != "" {
        m := GetChildNode(m, rest);
      }
    }

    /** readdir: ".", "..", then the entries; NONE behind the last. */
    method Readdir(d: int, offset: nat) returns (name: string, n: int)
      requires Closed(tree) && IsDirectory(tree, d)
      ensures offset == 0 ==> name == "." && n == d
      ensures offset == 1 ==> name == ".." && n == if tree[d].parent != NONE then tree[d].parent else d
      ensures 2 <= offset < |tree[d].names| + 2 ==> name == tree[d].names[offset - 2] && n == tree[d].children[offset - 2]
      ensures offset >= |tree[d].names| + 2 ==> n == NONE
    {
      if offset == 0 {
        return ".", d;
      } else if offset == 1 {
        return "..", if tree[d].parent != NONE then tree[d].parent else d;
      } else if offset - 2 < |tree[d].names| {
        return tree[d].names[offset - 2], tree[d].children[offset - 2];
      }
      return "", NONE;
    }
  }

  /** strchr for a slash, the length when there is none. */
  method Strchr(s: string) returns (k: nat)
    ensures k == SlashFrom(s, 0)
  {
    k := 0;
    while k < |s| && s[k] != '/'
      invariant k <= |s| && SlashFrom(s, k) == SlashFrom(s, 0)
    {
      k := k + 1;
    }
  }
}
