/** Path names: their components, dirname and basename. */
module Paths {
  /** The first slash from position i on, or the end. */
  function SlashFrom(s: string, i: nat): (k: nat)
    requires i <= |s|
    ensures i <= k <= |s| && (k < |s| ==> s[k] == '/') && forall j :: i <= j < k ==> s[j] != '/'
    decreases |s| - i
  {
    if i < |s| && s[i] != '/' then SlashFrom(s, i + 1) else i
  }

  predicate NoSlash(s: string) { forall k :: 0 <= k < |s| ==> s[k] != '/' }
  predicate AllSlashes(s: string) { forall k :: 0 <= k < |s| ==> s[k] == '/' }

  /** The non-empty names between the slashes. */
  function Components(s: string): seq<string>
    decreases |s|
  {
    if s == "" then []
    else
      var k := SlashFrom(s, 0);
      var rest := if k < |s| then Components(s[k + 1..]) else [];
      if k == 0 then rest else [s[..k]] + rest
  }

  /** Components of a name followed by a slash and more, or by nothing. */
  lemma FirstComponent(s: string, k: nat)
    requires k <= |s| && NoSlash(s[..k]) && (k < |s| ==> s[k] == '/')
    ensures Components(s) == (if k == 0 then [] else [s[..k]]) + (if k < |s| then Components(s[k + 1..]) else [])
  {
    FirstSlash(s, k);
    hide SlashFrom, NoSlash;
  }

  lemma FirstSlash(s: string, k: nat)
    requires k <= |s| && NoSlash(s[..k]) && (k < |s| ==> s[k] == '/')
    ensures SlashFrom(s, 0) == k
  {
    var j := SlashFrom(s, 0);
    assert forall i :: 0 <= i < k ==> s[i] == s[..k][i];
  }

  lemma {:induction false} ComponentsAppend(a: string, b: string)
    ensures Components(a + "/" + b) == Components(a) + Components(b)
    decreases |a|
  {
    var k := SlashFrom(a, 0);
    AppendSlices(a, b, k);
    FirstComponent(a, k);
    FirstComponent(a + "/" + b, k);
    hide Components, SlashFrom, NoSlash;
    if k < |a| {
      ComponentsAppend(a[k + 1..], b);
      Regroup(if k == 0 then [] else [a[..k]], Components(a[k + 1..]), Components(b));
    }
  }

  lemma Regroup(x: seq<string>, y: seq<string>, z: seq<string>)
    ensures x + (y + z) == x + y + z
  {
  }

  lemma AppendSlices(a: string, b: string, k: nat)
    requires k <= |a| && (k < |a| ==> a[k] == '/') && forall j :: 0 <= j < k ==> a[j] != '/'
    ensures var s := a + "/" + b;
            && |s| == |a| + 1 + |b| && s[k] == '/' && s[..k] == a[..k] && NoSlash(a[..k])
            && (if k < |a| then s[k + 1..] == a[k + 1..] + "/" + b else s[k + 1..] == b && a[..k] == a)
  {
  }

  lemma {:induction false} SlashesAppend(a: string, b: string)
    requires AllSlashes(b)
    ensures Components(a + b) == Components(a)
    decreases |b|
  {
    if b == "" {
      assert a + b == a;
    } else {
      SlashesAppend(a, b[1..]);
      assert a + b == a + "/" + b[1..];
      ComponentsAppend(a, b[1..]);
      SlashesOnly(b[1..]);
    }
  }

  lemma {:induction false} SlashesOnly(b: string)
    requires AllSlashes(b)
    ensures Components(b) == []
    decreases |b|
  {
    if b != "" {
      FirstComponent(b, 0);
      SlashesOnly(b[1..]);
    }
  }

  lemma {:induction false} NoComponents(s: string)
    requires Components(s) == []
    ensures AllSlashes(s)
    decreases |s|
  {
    if s != "" {
      var k := SlashFrom(s, 0);
      FirstComponent(s, k);
      if k < |s| { NoComponents(s[k + 1..]); }
      assert k == 0 && forall i :: 1 <= i < |s| ==> s[i] == s[1..][i - 1];
    }
  }

  lemma OneName(f: string)
    requires NoSlash(f) && f != ""
    ensures Components(f) == [f]
  {
    FirstComponent(f, |f|);
    assert f[..|f|] == f;
  }

  /** A path that ends in the name path[i..j] and slashes. */
  lemma LastComponent(path: string, i: nat, j: nat)
    requires i < j <= |path| && NoSlash(path[i..j]) && (i == 0 || path[i - 1] == '/') && AllSlashes(path[j..])
    ensures Components(path) == Components(path[..i]) + [path[i..j]]
  {
    hide Components, NoSlash, AllSlashes;
    var name := path[i..j];
    SlashesAppend(path[..j], path[j..]);
    assert path == path[..j] + path[j..];
    assert name != "";
    OneName(name);
    if i == 0 {
      assert path[..j] == name && path[..0] == "";
      EmptyPath();
    } else {
      var head := path[..i - 1];
      Cut(path, i, j);
      ComponentsAppend(head, name);
      ComponentsAppend(head, "");
      EmptyPath();
      assert head + "/" + "" == head + "/";
    }
  }

  lemma EmptyPath()
    ensures Components("") == []
  {
  }

  lemma Cut(path: string, i: nat, j: nat)
    requires 0 < i < j <= |path| && path[i - 1] == '/'
    ensures path[..j] == path[..i - 1] + "/" + path[i..j] && path[..i] == path[..i - 1] + "/"
  {
  }

  lemma {:induction false} NoEmptyComponents(s: string)
    ensures forall k :: 0 <= k < |Components(s)| ==> Components(s)[k] != "" && NoSlash(Components(s)[k])
    decreases |s|
  {
    if s != "" {
      var k := SlashFrom(s, 0);
      FirstComponent(s, k);
      if k < |s| { NoEmptyComponents(s[k + 1..]); }
    }
  }

  /** dirname: all components but the last; "." stands for none in a path without a slash. */
  method Dirname(path: string) returns (r: string)
    ensures r != "" && (|r| > 1 ==> r[|r| - 1] != '/')
    ensures Components(path) == [] ==> r == if path == "" then "." else "/"
    ensures var c := Components(path); c != [] ==> Components(r) == c[..|c| - 1] || (r == "." && |c| == 1)
  {
    hide Components, NoSlash;
    EmptyPath();
    if path == "" {
      return ".";
    }
    var i := |path| - 1;
    while path[i] == '/'
      invariant 0 <= i < |path| && AllSlashes(path[i + 1..])
      decreases i
    {
      if i == 0 {
        SlashesOnly(path);
        return "/";
      }
      i := i - 1;
    }
    var j := i + 1;
    NothingYet(path, j);
    while path[i] != '/'
      invariant 0 <= i < j && NoSlash(path[i + 1..j]) && AllSlashes(path[j..])
      decreases i
    {
      MoreName(path, i, j);
      if i == 0 {
        LastComponent(path, 0, j);
        assert path[..0] == "";
        return ".";
      }
      i := i - 1;
    }
    var k := i + 1;
    LastComponent(path, k, j);
    assert AllSlashes(path[i + 1..k]);
    while path[i] == '/'
      invariant 0 <= i < k && AllSlashes(path[i + 1..k])
      decreases i
    {
      MoreSlashes(path, i, k);
      if i == 0 {
        SlashesOnly(path[..k]);
        SlashesOnly("/");
        assert path[0..k] == path[..k];
        return "/";
      }
      i := i - 1;
    }
    SlashesAppend(path[..i + 1], path[i + 1..k]);
    assert path[..i + 1] + path[i + 1..k] == path[..k];
    r := path[..i + 1];
  }

  lemma NothingYet(path: string, j: nat)
    requires j <= |path|
    ensures NoSlash(path[j..j])
  {
  }

  lemma MoreName(path: string, i: nat, j: nat)
    requires i < j <= |path| && NoSlash(path[i + 1..j])
    ensures path[i] != '/' ==> NoSlash(path[i..j])
  {
  }

  lemma MoreSlashes(path: string, i: nat, k: nat)
    requires i < k <= |path| && AllSlashes(path[i + 1..k])
    ensures path[i] == '/' ==> AllSlashes(path[i..k])
  {
  }

  /** basename: the last component; a path of slashes only is "/". */
  method Basename(path: string) returns (r: string)
    ensures Components(path) == [] ==> r == if path == "" then "." else "/"
    ensures var c := Components(path); c != [] ==> r == c[|c| - 1]
  {
    if path == "" {
      return ".";
    }
    var i := |path| - 1;
    while i > 0 && path[i] == '/'
      invariant 0 <= i < |path| && AllSlashes(path[i + 1..])
    {
      i := i - 1;
    }
    var j := i + 1;
    if path[i] == '/' {
      SlashesOnly(path);
      assert path[0..j] == "/";
    }
    ghost var last := i;
    NothingYet(path, j);
    if path[last] != '/' { MoreName(path, last, j); }
    hide NoSlash, Components;
    while i > 0 && path[i - 1] != '/'
      invariant 0 <= i <= last && AllSlashes(path[j..])
      invariant path[last] != '/' ==> NoSlash(path[i..j])
      invariant path[last] == '/' ==> i == 0 && last == 0
    {
      if path[last] != '/' { MoreName(path, i - 1, j); }
      i := i - 1;
    }
    r := path[i..j];
    if path[last] != '/' { LastComponent(path, i, j); }
  }
}
