/**
  Archives as they are written, field by field of the header of the ustar interchange
  format: the loader reads back from them what was put in.
 */
module RamdiskImages {
  import opened Digits
  import opened FileTrees
  import opened InitialRamdisk
  import Paths
  import NumberParsing

  /** One header with its contents; the fields the loader does not look at hold anything. */
  datatype Entry = Entry(prefix: string, name: string, directory: bool, mode: nat, bytes: string, typeflag: char,
                         ids: string, times: string, link: string, owner: string, padding: string)

  function Zeros(n: nat): (s: string)
    ensures |s| == n && forall k :: 0 <= k < n ==> s[k] == 0 as char
  {
    seq(n, i => 0 as char)
  }

  /** A field of n bytes, filled up with NULs. */
  function Field(s: string, n: nat): (f: string)
    requires |s| <= n
    ensures |f| == n
  {
    s + Zeros(n - |s|)
  }

  function Octal(n: nat): string { if n == 0 then "0" else DigitsOf(n, 8, false) }

  predicate NoNul(s: string) { forall k :: 0 <= k < |s| ==> s[k] != 0 as char }

  /** What fits its fields: names of up to 99 and 154 bytes, numbers of up to 7 and 11 octal digits. */
  predicate Fits(e: Entry) {
    && |e.name| < 100 && |e.prefix| < 155 && NoNul(e.name) && NoNul(e.prefix)
    && |Octal(e.mode)| < 8 && |Octal(|e.bytes|)| < 12 && e.mode <= NumberParsing.LONG_MAX
    && |e.ids| == 16 && |e.times| == 20 && |e.link| == 100 && |e.owner| == 82 && |e.padding| == 12
    && (if e.directory then e.typeflag == '5' && e.bytes == "" else e.typeflag in {'0', 0 as char})
  }

  /** name, mode, uid, gid, size, mtime, checksum, typeflag, linkname, magic, version to devminor, prefix, padding. */
  function Header(e: Entry): string
    requires Fits(e)
  {
    Field(e.name, 100) + (Field(Octal(e.mode), 8) + (e.ids + (Field(Octal(|e.bytes|), 12) + (e.times + ([e.typeflag] + (e.link +
    (Field("ustar", 6) + (e.owner + (Field(e.prefix, 155) + e.padding)))))))))
  }

  /** The contents in whole blocks. */
  function Contents(bytes: string): string {
    bytes + Zeros(((|bytes| + 511) / 512) * 512 - |bytes|)
  }

  /** All entries, and a block of NULs behind them. */
  function Image(entries: seq<Entry>): string
    requires forall k :: 0 <= k < |entries| ==> Fits(entries[k])
  {
    if entries == [] then Zeros(512) else Header(entries[0]) + Contents(entries[0].bytes) + Image(entries[1..])
  }

  function MemberOf(e: Entry): Member {
    Member(Paths.Components(e.prefix) + Paths.Components(e.name), e.directory, e.mode, e.bytes)
  }

  function MembersOf(entries: seq<Entry>): (members: seq<Member>)
    ensures |members| == |entries| && forall k :: 0 <= k < |entries| ==> members[k] == MemberOf(entries[k])
  {
    seq(|entries|, k requires 0 <= k < |entries| => MemberOf(entries[k]))
  }

  // ---------- Reading fields ----------

  predicate HasAt(a: string, i: int, s: string) {
    0 <= i && i + |s| <= |a| && a[i..i + |s|] == s
  }

  lemma HasPart(a: string, i: int, s: string, j: int, t: string)
    requires HasAt(a, i, s) && HasAt(s, j, t)
    ensures HasAt(a, i + j, t)
  {
    forall k | 0 <= k < |t| ensures a[i + j + k] == t[k] {
      assert a[i..i + |s|][j + k] == s[j..j + |t|][k];
    }
  }

  lemma HasNext(a: string, i: int, s: string, t: string)
    requires HasAt(a, i, s + t)
    ensures HasAt(a, i, s) && HasAt(a, i + |s|, t)
  {
    assert (s + t)[0..|s|] == s && (s + t)[|s|..|s| + |t|] == t;
    HasPart(a, i, s + t, 0, s);
    HasPart(a, i, s + t, |s|, t);
  }

  /** A field that is not filled is read as what was written. */
  lemma FieldRead(a: string, i: nat, s: string, n: nat)
    requires |s| < n && NoNul(s) && HasAt(a, i, Field(s, n))
    ensures Text(a, i) == s
  {
    HasNext(a, i, s, Zeros(n - |s|));
    assert a[i + |s|] == a[i + |s|..i + n][0];
    TextIs(a, i, s);
  }

  /** A field that is filled to its end is read on into the next one. */
  lemma FullField(a: string, i: nat, s: string)
    requires NoNul(s) && HasAt(a, i, s) && i + |s| < |a|
    ensures Text(a, i) == s <==> a[i + |s|] == 0 as char
  {
    TextIs(a, i, s);
  }

  lemma OctalNumber(n: nat)
    ensures NoNul(Octal(n)) && OctalField(Octal(n)) && OctalValue(Octal(n)) == n
  {
    var s := Octal(n);
    if n == 0 {
      assert "0"[..1] == "0" && "0"[..0] == "";
      assert NumberParsing.DigitsEnd("0", 1, 8) == 1;
    } else {
      DigitsDenote(n, 8, false);
      hide Denote;
      NumberParsing.ReadsDigits(s, 0, 8);
      assert s[..|s|] == s;
    }
    NulNoDigit();
  }

  lemma NulNoDigit()
    ensures DigitValue(0 as char) >= 8
  {
  }

  /** Where each field of a header lies. */
  lemma HeaderFields(a: string, h: nat, e: Entry)
    requires Fits(e) && HasAt(a, h, Header(e))
    ensures |Header(e)| == 512
    ensures HasAt(a, h, Field(e.name, 100)) && HasAt(a, h + 100, Field(Octal(e.mode), 8)) && HasAt(a, h + 124, Field(Octal(|e.bytes|), 12))
    ensures HasAt(a, h + 156, [e.typeflag]) && HasAt(a, h + 257, Field("ustar", 6)) && HasAt(a, h + 345, Field(e.prefix, 155))
  {
    hide Field, Octal, HasAt, NoNul;
    var p10 := Field(e.prefix, 155) + e.padding;
    var p9 := e.owner + p10;
    var p8 := Field("ustar", 6) + p9;
    var p7 := e.link + p8;
    var p6 := [e.typeflag] + p7;
    var p5 := e.times + p6;
    var p4 := Field(Octal(|e.bytes|), 12) + p5;
    var p3 := e.ids + p4;
    var p2 := Field(Octal(e.mode), 8) + p3;
    HasNext(a, h, Field(e.name, 100), p2);
    HasNext(a, h + 100, Field(Octal(e.mode), 8), p3);
    HasNext(a, h + 108, e.ids, p4);
    HasNext(a, h + 124, Field(Octal(|e.bytes|), 12), p5);
    HasNext(a, h + 136, e.times, p6);
    HasNext(a, h + 156, [e.typeflag], p7);
    HasNext(a, h + 157, e.link, p8);
    HasNext(a, h + 257, Field("ustar", 6), p9);
    HasNext(a, h + 263, e.owner, p10);
    HasNext(a, h + 345, Field(e.prefix, 155), e.padding);
  }

  /** A header and contents that were written describe their member. */
  lemma WrittenDescribes(a: string, h: nat, e: Entry)
    requires Fits(e) && HasAt(a, h, Header(e) + Contents(e.bytes))
    ensures Describes(a, h, MemberOf(e)) && |Header(e)| == 512
    ensures Behind(h, MemberOf(e)) == h + |Header(e) + Contents(e.bytes)|
  {
    hide Describes, Text, Header, Contents, Octal, OctalField, OctalValue, Field, HasAt, NoNul, NamesAt, Behind;
    HasNext(a, h, Header(e), Contents(e.bytes));
    HeaderFields(a, h, e);
    OctalNumber(e.mode);
    OctalNumber(|e.bytes|);
    NoNulMagic();
    FieldRead(a, h, e.name, 100);
    FieldRead(a, h + 100, Octal(e.mode), 8);
    FieldRead(a, h + 124, Octal(|e.bytes|), 12);
    FieldRead(a, h + 257, "ustar", 6);
    FieldRead(a, h + 345, e.prefix, 155);
    HasContents(a, h + 512, e.bytes);
    assert HasAt(a, h + 156, [e.typeflag]);
    OneByte(a, h + 156, e.typeflag);
    FromFields(a, h, e);
    BehindIs(h, e);
  }

  lemma NoNulMagic()
    ensures NoNul("ustar")
  {
  }

  lemma OneByte(a: string, i: int, c: char)
    requires HasAt(a, i, [c])
    ensures 0 <= i < |a| && a[i] == c
  {
    assert a[i..i + 1][0] == c;
  }

  lemma HasContents(a: string, i: int, bytes: string)
    requires HasAt(a, i, Contents(bytes))
    ensures i >= 0 && i + |bytes| <= |a| && a[i..i + |bytes|] == bytes
  {
    HasNext(a, i, bytes, Zeros(((|bytes| + 511) / 512) * 512 - |bytes|));
  }

  lemma FromFields(a: string, h: nat, e: Entry)
    requires Fits(e) && h + 512 <= |a| && h + 512 + |e.bytes| <= |a| && a[h + 512..h + 512 + |e.bytes|] == e.bytes
    requires Text(a, h) == e.name && Text(a, h + 345) == e.prefix && Text(a, h + 257) == "ustar" && a[h + 156] == e.typeflag
    requires Text(a, h + 100) == Octal(e.mode) && Text(a, h + 124) == Octal(|e.bytes|)
    requires OctalField(Octal(e.mode)) && OctalValue(Octal(e.mode)) == e.mode
    requires OctalField(Octal(|e.bytes|)) && OctalValue(Octal(|e.bytes|)) == |e.bytes|
    ensures Describes(a, h, MemberOf(e))
  {
    hide Text, Octal, OctalField, OctalValue, NoNul, Paths.Components;
  }

  lemma BehindIs(h: nat, e: Entry)
    requires Fits(e) && |Header(e)| == 512
    ensures Behind(h, MemberOf(e)) == h + |Header(e) + Contents(e.bytes)|
  {
    hide Header, Octal, NoNul, Paths.Components;
  }

  // ---------- Whole images ----------

  /** The members follow one another from h on. */
  ghost predicate LaidFrom(a: string, members: seq<Member>, at: seq<nat>, h: nat) {
    && |at| == |members| + 1 && at[0] == h
    && forall i :: 0 <= i < |members| ==> Describes(a, at[i], members[i]) && at[i + 1] == Behind(at[i], members[i])
  }

  /** An image that was written is laid out as the loader expects it, and ends where it stops. */
  lemma {:induction false} ImageLaidFrom(a: string, entries: seq<Entry>, h: nat) returns (at: seq<nat>)
    requires (forall k :: 0 <= k < |entries| ==> Fits(entries[k])) && HasAt(a, h, Image(entries))
    ensures LaidFrom(a, MembersOf(entries), at, h) && HasAt(a, at[|entries|], Zeros(512))
    decreases |entries|
  {
    hide Describes, Behind, Header, Contents, Fits;
    if entries == [] {
      at := [h];
    } else {
      var e, rest := entries[0], entries[1..];
      var block := Header(e) + Contents(e.bytes);
      HasNext(a, h, block, Image(rest));
      WrittenDescribes(a, h, e);
      hide HasAt, Image;
      var more := ImageLaidFrom(a, rest, h + |block|);
      at := [h] + more;
      var members := MembersOf(entries);
      forall i | 0 <= i < |members| ensures Describes(a, at[i], members[i]) && at[i + 1] == Behind(at[i], members[i]) {
        if i > 0 { assert members[i] == MembersOf(rest)[i - 1] && at[i] == more[i - 1] && at[i + 1] == more[i]; }
      }
    }
  }

  /** What is written is what the loader is given: the members, and an end. */
  lemma ImageReads(entries: seq<Entry>) returns (at: seq<nat>)
    requires forall k :: 0 <= k < |entries| ==> Fits(entries[k])
    ensures var a, members := Image(entries), MembersOf(entries); LaidOut(a, members, at) && Stops(a, at[|members|], members)
  {
    hide Describes, Behind, Image, Fits, Text, HasAt, NamesAt, NoMember, DirectoryBefore, GoodNames, OctalField;
    var a := Image(entries);
    HasWhole(a);
    at := ImageLaidFrom(a, entries, 0);
    EndRead(a, at[|entries|]);
  }

  lemma HasWhole(a: string)
    ensures HasAt(a, 0, a)
  {
  }

  lemma EndRead(a: string, h: nat)
    requires HasAt(a, h, Zeros(512))
    ensures h + 512 <= |a| && Text(a, h + 257) == ""
  {
    assert a[h + 257] == a[h..h + 512][257];
    TextIs(a, h + 257, "");
  }

  // ---------- An example ----------

  function Plain(prefix: string, name: string, directory: bool, bytes: string): Entry {
    Entry(prefix, name, directory, 0x1ED, bytes, if directory then '5' else '0', Zeros(16), Zeros(20), Zeros(100), Zeros(82), Zeros(12))
  }

  const EXAMPLE: seq<Entry> := [Plain("", "usr", true, ""), Plain("", "bin", true, ""), Plain("usr", "bin", false, "x")]

  lemma ExampleFits()
    ensures forall k :: 0 <= k < |EXAMPLE| ==> Fits(EXAMPLE[k])
  {
    OctalDigits();
    hide Octal;
  }

  lemma OctalDigits()
    ensures |Octal(0x1ED)| == 3 && |Octal(0)| == 1 && |Octal(1)| == 1
  {
    hide DigitChar;
    DigitsStep(0x1ED, 8, false);
    DigitsStep(0x3D, 8, false);
    DigitsStep(7, 8, false);
    DigitsStep(1, 8, false);
    assert 0x1ED / 8 == 0x3D && 0x3D / 8 == 7 && 7 / 8 == 0 && 1 / 8 == 0;
  }

  lemma OneName(s: string)
    requires GoodName(s)
    ensures Paths.Components(s) == [s] && Paths.Components("") == []
  {
    assert s[..|s|] == s;
    Paths.FirstComponent(s, |s|);
  }

  lemma ExampleMembers()
    ensures var m := MembersOf(EXAMPLE);
      && m == [Member(["usr"], true, 0x1ED, ""), Member(["bin"], true, 0x1ED, ""), Member(["usr", "bin"], false, 0x1ED, "x")]
      && WellOrdered(m)
  {
    hide Paths.Components, GoodName, WellOrdered, Zeros;
    NamesGood();
    OneName("usr");
    OneName("bin");
    assert [] + ["usr"] == ["usr"] && [] + ["bin"] == ["bin"] && ["usr"] + ["bin"] == ["usr", "bin"];
    ExampleOrder(Member(["usr"], true, 0x1ED, ""), Member(["bin"], true, 0x1ED, ""), Member(["usr", "bin"], false, 0x1ED, "x"));
  }

  lemma NamesGood()
    ensures GoodName("usr") && GoodName("bin") && "usr" != "bin"
  {
  }

  lemma ExampleOrder(usr: Member, bin: Member, file: Member)
    requires usr.directory && usr.names == ["usr"] && bin.names == ["bin"] && file.names == ["usr", "bin"]
    ensures WellOrdered([usr, bin, file])
  {
    NamesGood();
    hide GoodName;
    var m := [usr, bin, file];
    assert Parent(["usr"]) == [] && Parent(["bin"]) == [] && Parent(["usr", "bin"]) == ["usr"];
    assert DirectoryBefore(m, 2, ["usr"]) by { assert m[0].names == ["usr"]; }
    assert ["usr"][0] != ["bin"][0];
    forall i | 0 <= i < |m| ensures m[i].names != [] && GoodNames(m[i].names) && DirectoryBefore(m, i, Parent(m[i].names)) {
    }
  }

  lemma ExampleSize()
    requires forall k :: 0 <= k < |EXAMPLE| ==> Fits(EXAMPLE[k])
    ensures |Image(EXAMPLE)| <= NumberParsing.ULONG_MAX
  {
    hide Fits, Octal, NoNul;
    assert EXAMPLE[1..] == [EXAMPLE[1], EXAMPLE[2]] && EXAMPLE[1..][1..] == [EXAMPLE[2]] && EXAMPLE[1..][1..][1..] == [];
    HeaderSize(EXAMPLE[0]);
    HeaderSize(EXAMPLE[1]);
    HeaderSize(EXAMPLE[2]);
    hide Header;
  }

  lemma HeaderSize(e: Entry)
    requires Fits(e)
    ensures |Header(e)| == 512
  {
    hide Octal, NoNul;
  }

  /** Directories usr and bin, and a file with prefix usr and name bin: the file is /usr/bin, with its byte, and /bin a directory. */
  method LoadExample() returns (fs: FileSystem, root: int)
    ensures Closed(fs.tree) && root in fs.tree
    ensures var n := ResolveList(fs.tree, root, ["usr", "bin"]); n in fs.tree && fs.tree[n] == File(0x1ED, "x")
    ensures IsDirectory(fs.tree, ResolveList(fs.tree, root, ["bin"])) && IsDirectory(fs.tree, ResolveList(fs.tree, root, ["usr"]))
  {
    hide Image, LaidOut, Stops, WellOrdered, Loaded, PathsLead, WellFormed, Fits, ResolveList;
    ExampleFits();
    ExampleMembers();
    ExampleSize();
    ghost var at := ImageReads(EXAMPLE);
    ghost var nodes, where;
    fs, root, nodes, where := LoadInitrd(Image(EXAMPLE), MembersOf(EXAMPLE), at);
    ExampleNode(Image(EXAMPLE), fs.tree, root, where, MembersOf(EXAMPLE), nodes, at, 0);
    ExampleNode(Image(EXAMPLE), fs.tree, root, where, MembersOf(EXAMPLE), nodes, at, 1);
    ExampleNode(Image(EXAMPLE), fs.tree, root, where, MembersOf(EXAMPLE), nodes, at, 2);
  }

  /** Every member is found under its names, as a node of its kind. */
  lemma ExampleNode(a: string, t: Tree, root: int, where: map<int, seq<string>>, members: seq<Member>, nodes: seq<int>, at: seq<nat>, i: nat)
    requires i < |members| && Loaded(t, root, where, members, nodes) && PathsLead(a, t, root, members, nodes, at)
    ensures Closed(t) && root in t
    ensures var n := ResolveList(t, root, members[i].names);
      n in t && if members[i].directory then t[n].Directory? && t[n].mode == members[i].mode else t[n] == File(members[i].mode, members[i].bytes)
  {
    hide Placed, ResolveList, Resolve;
  }
}
