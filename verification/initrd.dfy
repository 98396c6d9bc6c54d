/** The initial RAM disk: a ustar archive becomes a tree of directories and files. */
module InitialRamdisk {
  import opened Paths
  import opened FileTrees
  import opened Digits
  import opened NumberParsing

  // ---------- Headers ----------

  const BLOCK: nat := 512
  const MODE_AT: nat := 100
  const SIZE_AT: nat := 124
  const TYPE_AT: nat := 156
  const MAGIC_AT: nat := 257
  const PREFIX_AT: nat := 345

  const REGTYPE: char := '0'
  const AREGTYPE: char := 0 as char
  const DIRTYPE: char := '5'

  function NulFrom(s: string, i: nat): (k: nat)
    requires i <= |s|
    ensures i <= k <= |s|
    decreases |s| - i
  {
    if i < |s| && s[i] != 0 as char then NulFrom(s, i + 1) else i
  }

  /** The C string at a place of the archive. */
  function Text(a: string, i: nat): string
    requires i <= |a|
  {
    a[i..NulFrom(a, i)]
  }

  predicate IsHeader(a: string, h: nat)
    requires h + BLOCK <= |a|
  {
    Text(a, h + MAGIC_AT) == "ustar"
  }

  function PathAt(a: string, h: nat): string
    requires h + BLOCK <= |a|
  {
    var prefix := Text(a, h + PREFIX_AT);
    if prefix != "" then prefix + "/" + Text(a, h) else Text(a, h)
  }

  /** The names a header stands for: those in its prefix field, then those in its name field. */
  function NamesAt(a: string, h: nat): seq<string>
    requires h + BLOCK <= |a|
  {
    Components(Text(a, h + PREFIX_AT)) + Components(Text(a, h))
  }

  lemma PathNames(a: string, h: nat)
    requires h + BLOCK <= |a|
    ensures Components(PathAt(a, h)) == NamesAt(a, h)
  {
    hide Text;
    var prefix, name := Text(a, h + PREFIX_AT), Text(a, h);
    ComponentsAppend(prefix, name);
    assert prefix == "" ==> Components(prefix) == [] && [] + Components(name) == Components(name);
  }

  /** A field is read up to its first NUL, wherever that is. */
  lemma {:induction false} TextIs(a: string, i: nat, s: string)
    requires i <= |a|
    ensures Text(a, i) == s <==>
      i + |s| <= |a| && a[i..i + |s|] == s && (forall k :: 0 <= k < |s| ==> s[k] != 0 as char) && (i + |s| < |a| ==> a[i + |s|] == 0 as char)
    decreases |a| - i
  {
    if i == |a| || a[i] == 0 as char {
      assert s != "" && i < |a| && i + |s| <= |a| && a[i..i + |s|] == s ==> a[i] == s[0];
    } else {
      assert Text(a, i) == [a[i]] + Text(a, i + 1);
      if s != "" {
        TextIs(a, i + 1, s[1..]);
        assert s == [s[0]] + s[1..];
        if i + |s| <= |a| {
          assert a[i..i + |s|] == [a[i]] + a[i + 1..i + |s|];
        }
        assert forall k :: 0 <= k < |s| - 1 ==> s[1..][k] == s[k + 1];
        assert (forall k :: 0 <= k < |s| ==> s[k] != 0 as char) <==> s[0] != 0 as char && forall k :: 0 <= k < |s| - 1 ==> s[1..][k] != 0 as char by {
          if s[0] != 0 as char && forall k :: 0 <= k < |s| - 1 ==> s[1..][k] != 0 as char {
            forall k | 0 <= k < |s| ensures s[k] != 0 as char { if k > 0 { assert s[1..][k - 1] == s[k]; } }
          }
        }
      }
    }
  }

  predicate RegularFile(c: char) { c == REGTYPE || c == AREGTYPE }

  // ---------- Well-formed archives ----------

  datatype Member = Member(names: seq<string>, directory: bool, mode: nat, bytes: string)

  /** A field that starts with octal digits. */
  predicate OctalField(s: string) { DigitsEnd(s, 0, 8) > 0 }

  function OctalValue(s: string): nat { Denote(s[..DigitsEnd(s, 0, 8)], 8) }

  /** The header at h is that of m, and the contents of a file follow it. */
  ghost predicate Describes(a: string, h: nat, m: Member) {
    && h + BLOCK <= |a| && IsHeader(a, h) && m.names == NamesAt(a, h)
    && OctalField(Text(a, h + MODE_AT)) && OctalValue(Text(a, h + MODE_AT)) == m.mode <= LONG_MAX
    && if m.directory then a[h + TYPE_AT] == DIRTYPE
       else
         && RegularFile(a[h + TYPE_AT]) && h + BLOCK + |m.bytes| <= |a| && a[h + BLOCK..h + BLOCK + |m.bytes|] == m.bytes
         && OctalField(Text(a, h + SIZE_AT)) && OctalValue(Text(a, h + SIZE_AT)) == |m.bytes|
  }

  /** Whole blocks: the header's and those of the contents. */
  function Behind(h: nat, m: Member): nat {
    h + BLOCK * (1 + if m.directory then 0 else (|m.bytes| + BLOCK - 1) / BLOCK)
  }

  /** The members follow one another, at the places at[0], at[1], ... */
  ghost predicate LaidOut(a: string, members: seq<Member>, at: seq<nat>) {
    && |at| == |members| + 1 && at[0] == 0
    && forall i :: 0 <= i < |members| ==> Describes(a, at[i], members[i]) && at[i + 1] == Behind(at[i], members[i])
  }

  predicate GoodNames(names: seq<string>) { forall i :: 0 <= i < |names| ==> GoodName(names[i]) }

  function Parent(names: seq<string>): seq<string> {
    if names == [] then [] else names[..|names| - 1]
  }

  predicate DirectoryBefore(members: seq<Member>, k: nat, names: seq<string>) {
    names == [] || exists j :: 0 <= j < k <= |members| && members[j].directory && members[j].names == names
  }

  /** Distinct paths, parents first. */
  ghost predicate WellOrdered(members: seq<Member>) {
    && (forall i :: 0 <= i < |members| ==>
      members[i].names != [] && GoodNames(members[i].names) && DirectoryBefore(members, i, Parent(members[i].names)))
    && forall i, j :: 0 <= i < j < |members| ==> members[i].names != members[j].names
  }

  predicate NoMember(members: seq<Member>, names: seq<string>) {
    names != [] && forall j :: 0 <= j < |members| ==> members[j].names != names
  }

  /** Why loading ends at h: no header, a directory that no member is, or an unknown type. */
  ghost predicate Stops(a: string, h: nat, members: seq<Member>) {
    && h + BLOCK <= |a|
    && (IsHeader(a, h) ==>
      var names := NamesAt(a, h);
      && names != [] && GoodNames(Parent(names))
      && (NoMember(members, Parent(names)) ||
          (DirectoryBefore(members, |members|, Parent(names)) && OctalField(Text(a, h + MODE_AT))
           && !RegularFile(a[h + TYPE_AT]) && a[h + TYPE_AT] != DIRTYPE)))
  }

  // ---------- The tree so far ----------

  predicate DistinctNames(names: seq<string>) {
    forall i, k :: 0 <= i < k < |names| ==> names[i] != names[k]
  }

  /** Entry i of a directory: its place is one name longer. */
  ghost predicate EntryPlaced(t: Tree, where: map<int, seq<string>>, d: int, i: int) {
    (IsDirectory(t, d) && |t[d].names| == |t[d].children| && 0 <= i < |t[d].names|) ==>
      && GoodName(t[d].names[i])
      && var c := t[d].children[i];
         c in t && c in where && d in where && where[c] == where[d] + [t[d].names[i]] && (t[c].Directory? ==> t[c].parent == d)
  }

  ghost predicate Somewhere(t: Tree, n: int) { exists d :: Listed(t, d, n) }

  predicate DistinctPlaces(where: map<int, seq<string>>) {
    forall m, n :: m in where && n in where && where[m] == where[n] ==> m == n
  }

  /** Every node has a place, its own list of names from the root. */
  ghost predicate Placed(t: Tree, root: int, where: map<int, seq<string>>) {
    && Closed(t) && IsDirectory(t, root) && t[root].parent == NONE && where.Keys == t.Keys && where[root] == []
    && (forall d, i :: EntryPlaced(t, where, d, i))
    && (forall d :: IsDirectory(t, d) ==> DistinctNames(t[d].names))
    && (forall n :: n in t && n != root ==> Somewhere(t, n))
    && DistinctPlaces(where)
  }

  lemma EntryFact(t: Tree, root: int, where: map<int, seq<string>>, d: int, i: int)
    requires Placed(t, root, where) && IsDirectory(t, d) && 0 <= i < |t[d].names|
    ensures |t[d].names| == |t[d].children| && DistinctNames(t[d].names) && GoodName(t[d].names[i]) && d in where
    ensures var c := t[d].children[i];
            c in t && c in where && where[c] == where[d] + [t[d].names[i]] && (t[c].Directory? ==> t[c].parent == d)
  {
    assert EntryPlaced(t, where, d, i);
    hide GoodName, DistinctNames;
  }

  function Lengths(where: map<int, seq<string>>): map<int, nat> {
    map n | n in where :: |where[n]|
  }

  /** Such a tree is one that paths can be climbed in. */
  lemma PlacedWellFormed(t: Tree, root: int, where: map<int, seq<string>>)
    requires Placed(t, root, where)
    ensures WellFormed(t, root, Lengths(where))
  {
    var depth := Lengths(where);
    forall d, c | Listed(t, d, c)
      ensures c in t && depth[c] == depth[d] + 1 && (t[c].Directory? ==> t[c].parent == d)
    {
      var i :| 0 <= i < |t[d].children| && t[d].children[i] == c;
      EntryFact(t, root, where, d, i);
    }
    forall n | IsDirectory(t, n) && n != root
      ensures Listed(t, t[n].parent, n)
    {
      assert Somewhere(t, n);
      var d :| Listed(t, d, n);
      var i :| 0 <= i < |t[d].children| && t[d].children[i] == n;
      EntryFact(t, root, where, d, i);
    }
    forall d, i | IsDirectory(t, d) && 0 <= i < |t[d].names|
      ensures GoodName(t[d].names[i])
    {
      EntryFact(t, root, where, d, i);
    }
  }

  /** A name looked up behind a list of names. */
  lemma {:induction false} ResolveAppend(t: Tree, n: int, names: seq<string>, name: string)
    requires Closed(t) && n in t && ResolveList(t, n, names) != NONE && t[ResolveList(t, n, names)].Directory?
    ensures ResolveList(t, n, names + [name]) == Lookup(t, ResolveList(t, n, names), name)
    decreases |names|
  {
    if names == [] {
      assert [] + [name] == [name] + [];
      ListStep(t, n, name, []);
    } else {
      assert names == [names[0]] + names[1..] && names + [name] == [names[0]] + (names[1..] + [name]);
      ListStep(t, n, names[0], names[1..]);
      ListStep(t, n, names[0], names[1..] + [name]);
      var m := Lookup(t, n, names[0]);
      if names[1..] == [] { NoNames(t, m); }
      hide Closed, Lookup, ResolveList;
      ResolveAppend(t, m, names[1..], name);
    }
  }

  lemma EntryLookup(t: Tree, d: int, i: int)
    requires Closed(t) && IsDirectory(t, d) && 0 <= i < |t[d].names| && GoodName(t[d].names[i]) && DistinctNames(t[d].names)
    ensures Lookup(t, d, t[d].names[i]) == t[d].children[i]
  {
    var k := PlaceOf(t[d].names, t[d].names[i]);
    assert k == i;
  }

  /** The place of a node leads to it. */
  lemma {:induction false} PlaceLeads(t: Tree, root: int, where: map<int, seq<string>>, n: int)
    requires Placed(t, root, where) && n in t
    ensures n in where && ResolveList(t, root, where[n]) == n
    decreases |where[n]|
  {
    if n != root {
      assert Somewhere(t, n);
      var d :| Listed(t, d, n);
      var i :| 0 <= i < |t[d].children| && t[d].children[i] == n;
      EntryFact(t, root, where, d, i);
      EntryLookup(t, d, i);
      hide ResolveList, GoodName, Listed, Lookup;
      PlaceLeads(t, root, where, d);
      ResolveAppend(t, root, where[d], t[d].names[i]);
    }
  }

  lemma NameLeads(t: Tree, root: int, where: map<int, seq<string>>, n: int, name: string)
    requires Placed(t, root, where) && n in t && GoodName(name) && Lookup(t, n, name) != NONE
    ensures var m := Lookup(t, n, name); m in t && m in where && n in where && where[m] == where[n] + [name]
  {
    EntryFact(t, root, where, n, PlaceOf(t[n].names, name));
    hide Placed;
  }

  /** And good names lead nowhere else. */
  lemma {:induction false} LeadsToPlace(t: Tree, root: int, where: map<int, seq<string>>, n: int, names: seq<string>)
    requires Placed(t, root, where) && Closed(t) && n in t && n in where && GoodNames(names) && ResolveList(t, n, names) != NONE
    ensures var m := ResolveList(t, n, names); m in where && where[m] == where[n] + names
    decreases |names|
  {
    hide Placed, GoodName, GoodNames, Closed, Lookup;
    if names == [] {
      assert where[n] + [] == where[n];
    } else {
      var m, rest := Lookup(t, n, names[0]), names[1..];
      assert names == [names[0]] + rest;
      ListStep(t, n, names[0], rest);
      hide ResolveList;
      RestGood(names);
      NameLeads(t, root, where, n, names[0]);
      assert where[n] + [names[0]] + rest == where[n] + names;
      if rest != [] {
        LeadsToPlace(t, root, where, m, rest);
      } else {
        assert [names[0]] == names;
      }
    }
  }

  lemma RestGood(names: seq<string>)
    requires GoodNames(names) && names != []
    ensures GoodName(names[0]) && GoodNames(names[1..])
  {
  }

  function WithEntry(t: Tree, d: int, name: string, c: int): Tree
    requires IsDirectory(t, d)
  {
    t[d := t[d].(names := t[d].names + [name], children := t[d].children + [c])]
  }

  /** A new node under a new name. */
  lemma AddEntry(t: Tree, root: int, where: map<int, seq<string>>, d: int, name: string, c: int, node: Node)
    requires Placed(t, root, where) && IsDirectory(t, d) && GoodName(name) && c !in t && c != NONE
    requires node.Directory? ==> node.parent == d && node.names == [] && node.children == []
    requires forall n :: n in where ==> where[n] != where[d] + [name]
    ensures Placed(WithEntry(t[c := node], d, name, c), root, where[c := where[d] + [name]])
  {
    var u, w := WithEntry(t[c := node], d, name, c), where[c := where[d] + [name]];
    ClosedStep(t, d, name, c, node);
    NewName(t, root, where, d, name);
    hide EntryPlaced, Somewhere, GoodName, Closed, DistinctNames, DistinctPlaces;
    forall e, i
      ensures EntryPlaced(u, w, e, i)
    {
      EntryStep(t, root, where, d, name, c, node, e, i);
    }
    forall n | n in u && n != root
      ensures Somewhere(u, n)
    {
      SomewhereStep(t, root, where, d, name, c, node, n);
    }
    forall e | IsDirectory(u, e)
      ensures DistinctNames(u[e].names)
    {
      NoNamesDistinct();
    }
    PlacesStep(where, c, where[d] + [name]);
    assert w.Keys == u.Keys;
  }

  lemma NoNamesDistinct()
    ensures DistinctNames([])
  {
  }

  lemma PlacesStep(where: map<int, seq<string>>, c: int, place: seq<string>)
    requires DistinctPlaces(where) && c !in where && forall n :: n in where ==> where[n] != place
    ensures DistinctPlaces(where[c := place])
  {
  }

  lemma EntryStep(t: Tree, root: int, where: map<int, seq<string>>, d: int, name: string, c: int, node: Node, e: int, i: int)
    requires Placed(t, root, where) && IsDirectory(t, d) && GoodName(name) && c !in t && c != NONE
    requires node.Directory? ==> node.parent == d && node.names == [] && node.children == []
    ensures EntryPlaced(WithEntry(t[c := node], d, name, c), where[c := where[d] + [name]], e, i)
  {
    if IsDirectory(t, e) && 0 <= i < |t[e].names| {
      EntryFact(t, root, where, e, i);
    }
    assert e == d ==> |t[d].names| == |t[d].children|;
    hide Placed, GoodName;
  }

  lemma SomewhereStep(t: Tree, root: int, where: map<int, seq<string>>, d: int, name: string, c: int, node: Node, n: int)
    requires Placed(t, root, where) && IsDirectory(t, d) && c !in t && c != NONE && n != root && (n in t || n == c)
    ensures Somewhere(WithEntry(t[c := node], d, name, c), n)
  {
    var u := WithEntry(t[c := node], d, name, c);
    if n == c {
      assert u[d].children[|t[d].children|] == c;
      assert Listed(u, d, c);
    } else {
      assert Somewhere(t, n);
      var e :| Listed(t, e, n);
      var i :| 0 <= i < |t[e].children| && t[e].children[i] == n;
      assert u[e].children[i] == n;
      assert Listed(u, e, n);
    }
  }

  lemma NewName(t: Tree, root: int, where: map<int, seq<string>>, d: int, name: string)
    requires Placed(t, root, where) && IsDirectory(t, d)
    requires forall n :: n in where ==> where[n] != where[d] + [name]
    ensures name !in t[d].names && DistinctNames(t[d].names + [name])
  {
    if name in t[d].names {
      var i :| 0 <= i < |t[d].names| && t[d].names[i] == name;
      EntryFact(t, root, where, d, i);
    }
  }

  lemma ClosedStep(t: Tree, d: int, name: string, c: int, node: Node)
    requires Closed(t) && IsDirectory(t, d) && c !in t && c != NONE
    requires node.Directory? ==> node.parent == d && node.names == [] && node.children == []
    ensures Closed(WithEntry(t[c := node], d, name, c))
  {
  }

  // ---------- Loading ----------

  predicate Matches(node: Node, m: Member) {
    if m.directory then node.Directory? && node.mode == m.mode else node == File(m.mode, m.bytes)
  }

  /** Member i has become nodes[i]. */
  predicate NodesMatch(t: Tree, where: map<int, seq<string>>, members: seq<Member>, nodes: seq<int>) {
    && |nodes| <= |members|
    && forall i :: 0 <= i < |nodes| ==>
      nodes[i] in t && nodes[i] in where && where[nodes[i]] == members[i].names && Matches(t[nodes[i]], members[i])
  }

  /** The members are in the tree, and nothing else but the root. */
  ghost predicate Loaded(t: Tree, root: int, where: map<int, seq<string>>, members: seq<Member>, nodes: seq<int>) {
    && Placed(t, root, where) && NodesMatch(t, where, members, nodes)
    && forall n :: n in t ==> n == root || n in nodes
  }

  /** What dirname gives. */
  predicate DirnameOf(path: string, r: string) {
    && r != "" && (|r| > 1 ==> r[|r| - 1] != '/')
    && var c := Components(path);
       c != [] ==> Components(r) == c[..|c| - 1] || (r == "." && |c| == 1)
  }

  lemma DotLeads(t: Tree, n: int)
    requires Closed(t) && IsDirectory(t, n)
    ensures Resolve(t, n, ".") == n
  {
    LastName(t, n, ".");
  }

  /** The directory part of a path leads to the directory at that place. */
  lemma DirectoryFound(t: Tree, root: int, where: map<int, seq<string>>, path: string, r: string, d: int)
    requires Placed(t, root, where) && Components(path) != [] && DirnameOf(path, r)
    requires IsDirectory(t, d) && d in where && where[d] == Parent(Components(path))
    ensures Resolve(t, root, r) == d
  {
    var c := Components(path);
    PlaceLeads(t, root, where, d);
    if Components(r) == c[..|c| - 1] {
      ResolveComponents(t, root, r);
      hide Components, ResolveFrom, ResolveList;
    } else {
      DotLeads(t, root);
    }
  }

  /** And to nothing when no node is there. */
  lemma DirectoryMissing(t: Tree, root: int, where: map<int, seq<string>>, path: string, r: string)
    requires Placed(t, root, where) && Components(path) != [] && DirnameOf(path, r)
    requires Parent(Components(path)) != [] && GoodNames(Parent(Components(path)))
    requires forall n :: n in where ==> where[n] != Parent(Components(path))
    ensures Resolve(t, root, r) == NONE
  {
    var c := Components(path);
    var parent := Parent(c);
    ResolveComponents(t, root, r);
    hide Components, ResolveFrom, ResolveList;
    assert [] + parent == parent;
    if ResolveList(t, root, parent) != NONE {
      LeadsToPlace(t, root, where, root, parent);
    }
  }

  lemma ParentNode(t: Tree, root: int, where: map<int, seq<string>>, members: seq<Member>, nodes: seq<int>, names: seq<string>)
    returns (d: int)
    requires Loaded(t, root, where, members, nodes) && DirectoryBefore(members, |nodes|, names)
    ensures IsDirectory(t, d) && d in where && where[d] == names
  {
    if names == [] {
      d := root;
    } else {
      var j :| 0 <= j < |nodes| && members[j].directory && members[j].names == names;
      d := nodes[j];
    }
  }

  lemma MemberDirectory(t: Tree, root: int, where: map<int, seq<string>>, members: seq<Member>, nodes: seq<int>, path: string, r: string)
    requires Loaded(t, root, where, members, nodes) && Components(path) != [] && DirnameOf(path, r)
    requires DirectoryBefore(members, |nodes|, Parent(Components(path)))
    ensures Placed(t, root, where)
    ensures var d := Resolve(t, root, r); IsDirectory(t, d) && d in where && where[d] == Parent(Components(path))
  {
    var d := ParentNode(t, root, where, members, nodes, Parent(Components(path)));
    hide Placed, Components, DirnameOf, Resolve;
    DirectoryFound(t, root, where, path, r, d);
  }

  lemma NoMemberDirectory(t: Tree, root: int, where: map<int, seq<string>>, members: seq<Member>, nodes: seq<int>, path: string, r: string)
    requires Loaded(t, root, where, members, nodes) && |nodes| == |members| && Components(path) != [] && DirnameOf(path, r)
    requires NoMember(members, Parent(Components(path))) && GoodNames(Parent(Components(path)))
    ensures Placed(t, root, where) && Resolve(t, root, r) == NONE
  {
    var parent := Parent(Components(path));
    assert where.Keys == t.Keys && where[root] == [];
    forall n | n in where
      ensures where[n] != parent
    {
      if n != root {
        var i :| 0 <= i < |nodes| && nodes[i] == n;
        assert members[i].names != parent;
      }
    }
    hide Placed, Components, DirnameOf, Resolve, GoodNames;
    DirectoryMissing(t, root, where, path, r);
  }

  lemma MemberAdded(t: Tree, root: int, where: map<int, seq<string>>, members: seq<Member>, nodes: seq<int>, d: int, c: int, node: Node)
    requires Loaded(t, root, where, members, nodes) && WellOrdered(members) && |nodes| < |members|
    requires IsDirectory(t, d) && d in where && where[d] == Parent(members[|nodes|].names) && c !in t && c != NONE
    requires Matches(node, members[|nodes|]) && (node.Directory? ==> node.parent == d && node.names == [] && node.children == [])
    ensures members[|nodes|].names != []
    ensures var names := members[|nodes|].names;
            Loaded(WithEntry(t[c := node], d, names[|names| - 1], c), root, where[c := names], members, nodes + [c])
  {
    hide Placed, WithEntry, Matches, GoodName;
    LastGood(members, |nodes|);
    var names := members[|nodes|].names;
    var name := names[|names| - 1];
    FreshPlace(t, root, where, members, nodes);
    hide WellOrdered;
    AddEntry(t, root, where, d, name, c, node);
    Changed(t, d, name, c, node);
    NodesStep(t, WithEntry(t[c := node], d, name, c), where, members, nodes, c, node);
  }

  lemma NodesStep(t: Tree, u: Tree, where: map<int, seq<string>>, members: seq<Member>, nodes: seq<int>, c: int, node: Node)
    requires NodesMatch(t, where, members, nodes) && |nodes| < |members|
    requires c !in t && c in u && u[c] == node && Matches(node, members[|nodes|])
    requires t.Keys <= u.Keys && forall n :: n in t ==> SameKind(t[n], u[n])
    ensures NodesMatch(u, where[c := members[|nodes|].names], members, nodes + [c])
  {
    forall i | 0 <= i < |nodes|
      ensures nodes[i] in u && nodes[i] != c && Matches(u[nodes[i]], members[i])
    {
      var n: int := nodes[i];
      assert n in t.Keys && SameKind(t[n], u[n]);
    }
  }

  predicate SameKind(a: Node, b: Node) {
    if a.Directory? then b.Directory? && a.mode == b.mode else a == b
  }

  lemma Changed(t: Tree, d: int, name: string, c: int, node: Node)
    requires IsDirectory(t, d) && c !in t
    ensures var u := WithEntry(t[c := node], d, name, c);
            u.Keys == t.Keys + {c} && c in u && u[c] == node && forall n :: n in t ==> SameKind(t[n], u[n])
  {
  }

  lemma LastGood(members: seq<Member>, k: nat)
    requires WellOrdered(members) && k < |members|
    ensures var names := members[k].names;
            names != [] && GoodName(names[|names| - 1]) && names == Parent(names) + [names[|names| - 1]]
  {
  }

  /** No node is where the next member belongs. */
  lemma FreshPlace(t: Tree, root: int, where: map<int, seq<string>>, members: seq<Member>, nodes: seq<int>)
    requires Loaded(t, root, where, members, nodes) && WellOrdered(members) && |nodes| < |members|
    ensures where.Keys == t.Keys && forall n :: n in where ==> where[n] != members[|nodes|].names
  {
    var names := members[|nodes|].names;
    assert names != [];
    assert where.Keys == t.Keys && where[root] == [];
    hide Placed;
    forall n | n in where
      ensures where[n] != names
    {
      if n != root {
        var i :| 0 <= i < |nodes| && nodes[i] == n;
        assert members[i].names != names;
      }
    }
  }

  /** The number in an octal field is what strtoul and strtol read. */
  lemma OctalRead(s: string, signed: bool)
    requires OctalField(s) && OctalValue(s) <= MaxOf(signed)
    ensures !Undefined(s, 8, signed) && Result(s, 8, signed).value == OctalValue(s)
  {
    assert DigitValue(s[0]) < 8;
    assert '0' <= s[0] <= '7';
    assert SkipSpaces(s, 0) == 0 && DigitsBegin(s, 8) == (8, false, 0);
    if signed { DefinedBelow(s, 8); }
    hide DigitsEnd, Denote, AllDigits, DigitValue, WrapsNegative;
  }

  /** Every node is found under its path. */
  lemma MemberFound(t: Tree, root: int, where: map<int, seq<string>>, members: seq<Member>, nodes: seq<int>, i: nat, path: string)
    requires Loaded(t, root, where, members, nodes) && i < |nodes| && members[i].names != []
    requires Components(path) == members[i].names && (members[i].directory || !EndsInSlash(path))
    ensures Placed(t, root, where) && Resolve(t, root, path) == nodes[i]
  {
    PlaceLeads(t, root, where, nodes[i]);
    ResolveComponents(t, root, path);
    EmptyPath();
    hide Components, ResolveFrom, ResolveList, Placed;
  }

  /** What the loop knows of a header: a member's while there are some, then the one to stop at. */
  ghost predicate Expected(a: string, h: nat, members: seq<Member>, k: nat) {
    if k < |members| then Describes(a, h, members[k]) else Stops(a, h, members)
  }

  /** The directory of the header that is read: it is there for a member; where loading stops the type is unknown. */
  lemma HeaderDirectory(a: string, h: nat, t: Tree, root: int, where: map<int, seq<string>>, members: seq<Member>, nodes: seq<int>, r: string)
    requires Loaded(t, root, where, members, nodes) && WellOrdered(members) && Expected(a, h, members, |nodes|)
    requires h + BLOCK <= |a| && IsHeader(a, h) && DirnameOf(PathAt(a, h), r)
    ensures Closed(t) && root in t && Components(PathAt(a, h)) != [] && |nodes| <= |members|
    ensures var d := Resolve(t, root, r);
            if d == NONE then |nodes| == |members|
            else
              && IsDirectory(t, d) && d in where && where[d] == Parent(Components(PathAt(a, h))) && OctalField(Text(a, h + MODE_AT))
              && (|nodes| == |members| ==> !RegularFile(a[h + TYPE_AT]) && a[h + TYPE_AT] != DIRTYPE)
  {
    var path := PathAt(a, h);
    PathNames(a, h);
    assert |nodes| <= |members|;
    if |nodes| < |members| {
      assert WellOrdered(members) ==> DirectoryBefore(members, |nodes|, Parent(members[|nodes|].names)) && members[|nodes|].names != [];
    }
    hide WellOrdered, Components, DirnameOf, Resolve, PathAt, NamesAt, IsHeader, OctalField, GoodNames, Text, Placed, NodesMatch,
      DirectoryBefore, NoMember;
    if |nodes| == |members| && NoMember(members, Parent(Components(path))) {
      NoMemberDirectory(t, root, where, members, nodes, path, r);
    } else {
      MemberDirectory(t, root, where, members, nodes, path, r);
    }
    PlacedFacts(t, root, where);
  }

  lemma PlacedFacts(t: Tree, root: int, where: map<int, seq<string>>)
    requires Placed(t, root, where)
    ensures Closed(t) && IsDirectory(t, root)
  {
  }

  /** A new node, entered in its directory. */
  method AddMember(fs: FileSystem, directory: int, fileName: string, node: Node) returns (c: int)
    requires fs.Numbered() && Closed(fs.tree) && IsDirectory(fs.tree, directory)
    modifies fs
    ensures fs.Numbered() && c !in old(fs.tree) && c != NONE
    ensures fs.tree == WithEntry(old(fs.tree)[c := node], directory, fileName, c)
  {
    c := fs.NewNode(node);
    fs.AddChildNode(directory, fileName, c);
  }

  /** The node for a header with a known type, and where the next header is. */
  method ReadNode(a: string, h: nat, size: int, mode: int, directory: int) returns (node: Node, next: nat, known: bool)
    requires h + BLOCK <= |a|
    requires RegularFile(a[h + TYPE_AT]) ==> 0 <= size <= |a| - h - BLOCK
    ensures known <==> RegularFile(a[h + TYPE_AT]) || a[h + TYPE_AT] == DIRTYPE
    ensures known ==> if RegularFile(a[h + TYPE_AT]) then
      node == File(mode, a[h + BLOCK..h + BLOCK + size]) && next == h + BLOCK * (1 + (size + BLOCK - 1) / BLOCK)
      else node == Directory(mode, directory, [], []) && next == h + BLOCK
  {
    known := true;
    if a[h + TYPE_AT] == REGTYPE || a[h + TYPE_AT] == AREGTYPE {
      node := File(mode, a[h + BLOCK..h + BLOCK + size]);
      next := h + BLOCK * (1 + AlignUp(size) / BLOCK);
    } else if a[h + TYPE_AT] == DIRTYPE {
      node := Directory(mode, directory, [], []);
      next := h + BLOCK;
    } else {
      node, next, known := File(0, ""), h, false;
    }
  }

  function AlignUp(size: nat): (r: nat)
    ensures r / BLOCK == (size + BLOCK - 1) / BLOCK
  {
    (size + BLOCK - 1) / BLOCK * BLOCK
  }

  lemma MemberNode(a: string, h: nat, m: Member, directory: int, size: int, mode: int, node: Node, next: nat)
    requires Describes(a, h, m) && mode == m.mode && (!m.directory ==> size == |m.bytes|)
    requires if RegularFile(a[h + TYPE_AT]) then
      0 <= size <= |a| - h - BLOCK && node == File(mode, a[h + BLOCK..h + BLOCK + size]) && next == h + BLOCK * (1 + (size + BLOCK - 1) / BLOCK)
      else node == Directory(mode, directory, [], []) && next == h + BLOCK
    ensures Matches(node, m) && next == Behind(h, m)
    ensures node.Directory? ==> node.parent == directory && node.names == [] && node.children == []
  {
    hide Text, IsHeader, PathAt, NamesAt, Components, OctalField, OctalValue;
  }

  /** The sizes and modes that are read. */
  lemma MemberNumbers(a: string, h: nat, m: Member)
    requires Describes(a, h, m) && |a| <= ULONG_MAX
    ensures !Undefined(Text(a, h + MODE_AT), 8, true) && Result(Text(a, h + MODE_AT), 8, true).value == m.mode
    ensures RegularFile(a[h + TYPE_AT]) <==> !m.directory
    ensures m.directory ==> a[h + TYPE_AT] == DIRTYPE
    ensures !m.directory ==> Result(Text(a, h + SIZE_AT), 8, false).value == |m.bytes| <= |a| - h - BLOCK
  {
    hide Text, IsHeader, PathAt, NamesAt, Components, OctalField, OctalValue, Result, Undefined;
    OctalRead(Text(a, h + MODE_AT), true);
    if !m.directory { OctalRead(Text(a, h + SIZE_AT), false); }
  }

  lemma EmptyTree(t: Tree, root: int, members: seq<Member>)
    requires root != NONE && t == map[root := Directory(0x1ED, NONE, [], [])]
    ensures Loaded(t, root, map[root := []], members, [])
  {
    var where: map<int, seq<string>> := map[root := []];
    NoNamesDistinct();
    assert forall d, i :: EntryPlaced(t, where, d, i);
  }

  lemma Places(a: string, members: seq<Member>, at: seq<nat>)
    requires LaidOut(a, members, at)
    ensures |at| == |members| + 1 && at[0] == 0
  {
  }

  /** A member has a header. */
  lemma NoHeader(a: string, h: nat, members: seq<Member>, k: nat)
    requires Expected(a, h, members, k) && h + BLOCK <= |a| && Text(a, h + MAGIC_AT) != "ustar"
    ensures k >= |members|
  {
    hide Text, PathAt, NamesAt, Components, OctalField, OctalValue;
  }

  lemma HeaderNext(a: string, members: seq<Member>, at: seq<nat>, k: nat)
    requires LaidOut(a, members, at) && Stops(a, at[|members|], members) && k <= |members|
    ensures at[k] + BLOCK <= |a| && Expected(a, at[k], members, k)
    ensures k > 0 ==> at[k] == Behind(at[k - 1], members[k - 1])
  {
    assert Stops(a, at[|members|], members);
    hide Text, IsHeader, PathAt, NamesAt, Components, OctalField, OctalValue, GoodNames, DirectoryBefore, NoMember;
  }

  /**
    The names of each member lead from the root to its node, and so does its path; the path of a file must not end in a slash.
   */
  ghost predicate PathsLead(a: string, t: Tree, root: int, members: seq<Member>, nodes: seq<int>, at: seq<nat>) {
    && Closed(t) && root in t && |nodes| == |members| <= |at|
    && forall i :: 0 <= i < |members| ==>
      && at[i] + BLOCK <= |a| && ResolveList(t, root, members[i].names) == nodes[i]
      && (members[i].directory || !EndsInSlash(PathAt(a, at[i])) ==> Resolve(t, root, PathAt(a, at[i])) == nodes[i])
  }

  lemma LoadedParts(t: Tree, root: int, where: map<int, seq<string>>, members: seq<Member>, nodes: seq<int>)
    requires Loaded(t, root, where, members, nodes)
    ensures Placed(t, root, where)
  {
  }

  lemma LoadedPaths(a: string, t: Tree, root: int, where: map<int, seq<string>>, members: seq<Member>, nodes: seq<int>, at: seq<nat>)
    requires LaidOut(a, members, at) && WellOrdered(members) && |nodes| == |members| && Loaded(t, root, where, members, nodes)
    ensures WellFormed(t, root, Lengths(where)) && PathsLead(a, t, root, members, nodes, at)
  {
    PlacedWellFormed(t, root, where);
    PlacedFacts(t, root, where);
    forall i | 0 <= i < |members|
      ensures at[i] + BLOCK <= |a| && ResolveList(t, root, members[i].names) == nodes[i]
      ensures members[i].directory || !EndsInSlash(PathAt(a, at[i])) ==> Resolve(t, root, PathAt(a, at[i])) == nodes[i]
    {
      assert Describes(a, at[i], members[i]);
      DescribedNames(a, at[i], members[i]);
      assert where[nodes[i]] == members[i].names && nodes[i] in t;
      hide Components, PathAt, NamesAt, EndsInSlash, Resolve, ResolveList, Placed, Loaded, Text, OctalField, OctalValue, IsHeader,
        WellFormed, GoodNames, DirectoryBefore;
      LoadedParts(t, root, where, members, nodes);
      PlaceLeads(t, root, where, nodes[i]);
      if members[i].directory || !EndsInSlash(PathAt(a, at[i])) {
        MemberFound(t, root, where, members, nodes, i, PathAt(a, at[i]));
      }
    }
  }

  /** A member's path and its two parts. */
  method ReadName(a: string, h: nat) returns (dirName: string, fileName: string)
    requires h + BLOCK <= |a|
    ensures DirnameOf(PathAt(a, h), dirName)
    ensures var c := Components(PathAt(a, h)); c != [] ==> fileName == c[|c| - 1]
  {
    hide Components, Text;
    var prefix := Text(a, h + PREFIX_AT);
    var path := if prefix != "" then prefix + "/" + Text(a, h) else Text(a, h);
    dirName := Dirname(path);
    fileName := Basename(path);
  }

  /** The mode and the node of a header whose directory is found. */
  method ReadMember(a: string, h: nat, size: int, directory: int, ghost members: seq<Member>, ghost k: nat)
    returns (node: Node, next: nat, known: bool)
    requires h + BLOCK <= |a| && |a| <= ULONG_MAX && OctalField(Text(a, h + MODE_AT))
    requires k < |members| ==> Describes(a, h, members[k]) && size == Result(Text(a, h + SIZE_AT), 8, false).value
    requires k >= |members| ==> !RegularFile(a[h + TYPE_AT]) && a[h + TYPE_AT] != DIRTYPE
    ensures known == (k < |members|)
    ensures known ==> Matches(node, members[k]) && next == Behind(h, members[k])
    ensures known && node.Directory? ==> node.parent == directory && node.names == [] && node.children == []
  {
    hide Describes, Text, Result, SkipSpaces, At, OctalField, RegularFile, Undefined;
    var mode, _, _ := Strtoul(Text(a, h + MODE_AT), 8, true);
    if k < |members| { MemberNumbers(a, h, members[k]); }
    node, next, known := ReadNode(a, h, size, mode.value, directory);
    if known { MemberNode(a, h, members[k], directory, size, mode.value, node, next); }
  }

  /** One header: its member is added to the tree, or loading stops. */
  method LoadOne(fs: FileSystem, root: int, a: string, h: nat, ghost where: map<int, seq<string>>, ghost members: seq<Member>, ghost nodes: seq<int>)
    returns (next: nat, c: int)
    requires h + BLOCK <= |a| <= ULONG_MAX && IsHeader(a, h) && WellOrdered(members) && Expected(a, h, members, |nodes|)
    requires fs.Numbered() && Loaded(fs.tree, root, where, members, nodes) && OpenRoot(fs.tree, root)
    modifies fs
    ensures fs.Numbered() && (c == NONE <==> |nodes| >= |members|) && OpenRoot(fs.tree, root)
    ensures c == NONE ==> fs.tree == old(fs.tree)
    ensures c != NONE ==> next == Behind(h, members[|nodes|])
    ensures c != NONE ==> Loaded(fs.tree, root, where[c := members[|nodes|].names], members, nodes + [c])
  {
    hide WellOrdered, Loaded, Describes, Text, Result, Components, Resolve, PathAt, OctalField, RegularFile, Matches, DirnameOf;
    var size, _, _ := Strtoul(Text(a, h + SIZE_AT), 8, false);
    var dirName, fileName := ReadName(a, h);
    HeaderDirectory(a, h, fs.tree, root, where, members, nodes, dirName);
    var directory := fs.ResolvePath(root, dirName);
    if directory == NONE { return h, NONE; }
    var node, known;
    node, next, known := ReadMember(a, h, size.value, directory, members, |nodes|);
    if !known { return h, NONE; }
    ghost var t := fs.tree;
    c := AddMember(fs, directory, fileName, node);
    DescribedNames(a, h, members[|nodes|]);
    MemberAdded(t, root, where, members, nodes, directory, c, node);
  }

  /** The root is a directory that its owner may write and everyone may read and search. */
  predicate OpenRoot(t: Tree, root: int) { IsDirectory(t, root) && t[root].mode == 0x1ED }

  lemma DescribedNames(a: string, h: nat, m: Member)
    requires Describes(a, h, m)
    ensures h + BLOCK <= |a| && Components(PathAt(a, h)) == m.names
  {
    hide PathAt, NamesAt, Text, Components, OctalField, OctalValue, IsHeader;
    PathNames(a, h);
  }

  /**
    loadInitrd: exactly the members are loaded, whatever follows them; each is found under its path as a node of its kind,
    a file with its bytes, and paths can be climbed in the tree.
   */
  method LoadInitrd(a: string, ghost members: seq<Member>, ghost at: seq<nat>)
    returns (fs: FileSystem, root: int, ghost nodes: seq<int>, ghost where: map<int, seq<string>>)
    requires LaidOut(a, members, at) && WellOrdered(members) && Stops(a, at[|members|], members) && |a| <= ULONG_MAX
    ensures fresh(fs) && |nodes| == |members| && Loaded(fs.tree, root, where, members, nodes)
    ensures WellFormed(fs.tree, root, Lengths(where)) && PathsLead(a, fs.tree, root, members, nodes, at)
    ensures IsDirectory(fs.tree, root) && fs.tree[root].mode == 0x1ED
  {
    hide LaidOut, WellOrdered, Stops, Loaded, Describes, Text, Expected, WellFormed, PathsLead, Behind;
    Places(a, members, at);
    fs := new FileSystem();
    root := fs.NewNode(Directory(0x1ED, NONE, [], []));
    EmptyTree(fs.tree, root, members);
    nodes, where := [], map[root := []];
    var h := 0;
    HeaderNext(a, members, at, 0);
    while Text(a, h + MAGIC_AT) == "ustar"
      invariant |nodes| <= |members| < |at| && h == at[|nodes|] && h + BLOCK <= |a| && Expected(a, h, members, |nodes|)
      invariant fresh(fs) && fs.Numbered() && Loaded(fs.tree, root, where, members, nodes) && OpenRoot(fs.tree, root)
      decreases |members| - |nodes|
    {
      var next, c := LoadOne(fs, root, a, h, where, members, nodes);
      if c == NONE { break; }
      ghost var k := |nodes|;
      nodes, where := nodes + [c], where[c := members[k].names];
      HeaderNext(a, members, at, k + 1);
      h := next;
    }
    if Text(a, h + MAGIC_AT) != "ustar" { NoHeader(a, h, members, |nodes|); }
    LoadedPaths(a, fs.tree, root, where, members, nodes, at);
  }
}
