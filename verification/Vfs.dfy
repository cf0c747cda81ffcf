/** The tree of cached directory entries, its mount points, and the two ways between an entry and
    its path: `vfs_real_path` up the tree and the path walk down it. */
module Vfs {

  const NONE: int := -1

  /** `children` are the cached children, the newest first.  The root of a mounted file system is an
      entry of its own, whose parent is the entry it is mounted on. */
  datatype Entry = Entry(parent: int, children: seq<int>, name: string, isRoot: bool, isSymlink: bool,
                         fromMount: int, mount: int)

  datatype MountPoint = MountPoint(entry: int, root: int)

  datatype Tree = Tree(vroot: int, entries: map<int, Entry>, mounts: map<int, MountPoint>)

  // ---------------------------------------------------------------- names and paths

  predicate NameOk(s: string) { s != "" && '/' !in s && '\0' !in s && s != "." && s != ".." }

  /** The string that `vfs_real_path` writes for the names from the root down. */
  function Joined(names: seq<string>): (p: string)
    ensures p == "" || p[0] == '/'
  {
    if names == [] then "" else "/" + names[0] + Joined(names[1..])
  }

  function PathOf(names: seq<string>): string { if names == [] then "/" else Joined(names) }

  function Skip(p: string): (r: string)
    ensures |r| <= |p| && (r == "" || r[0] != '/')
  {
    if p != "" && p[0] == '/' then Skip(p[1..]) else p
  }

  /** The position of the next slash, or the length. */
  function Slash(p: string): (i: nat)
    ensures i <= |p| && '/' !in p[..i] && (i < |p| ==> p[i] == '/')
  {
    if p == "" || p[0] == '/' then 0 else 1 + Slash(p[1..])
  }

  /** The segments that the walk looks up, one after the other. */
  function Segments(p: string): seq<string>
    requires p == "" || p[0] != '/'
    decreases |p|
  {
    if p == "" then [] else
      var i := Slash(p);
      if i == |p| then [p] else [p[..i]] + Segments(Skip(p[i..]))
  }

  lemma {:induction false} SlashAfterName(n: string, r: string)
    requires '/' !in n && (r == "" || r[0] == '/')
    ensures Slash(n + r) == |n|
    decreases |n|
  {
    if n == "" {
      assert n + r == r;
    } else {
      assert n[0] in n && (n + r)[1..] == n[1..] + r;
      SlashAfterName(n[1..], r);
    }
  }

  lemma SegmentStep(p: string, n: string, r: string)
    requires p == n + r && n != "" && '/' !in n && (r == "" || r[0] == '/')
    ensures p[0] != '/' && Segments(p) == if r == "" then [n] else [n] + Segments(Skip(r))
  {
    assert p[0] == n[0] && n[0] in n;
    SlashAfterName(n, r);
    assert p[..|n|] == n && p[|n|..] == r;
    assert r == "" ==> p == n;
  }

  lemma SkipSlash(p: string)
    requires p == "" || p[0] != '/'
    ensures Skip("/" + p) == p
  {
    assert ("/" + p)[1..] == p;
    assert Skip(p) == p;
  }

  ghost predicate NamesOk(names: seq<string>) { forall i :: 0 <= i < |names| ==> NameOk(names[i]) }

  lemma JoinedShape(names: seq<string>)
    requires names != []
    ensures Joined(names) == "/" + (names[0] + Joined(names[1..]))
  {
  }

  lemma EmptyPath(names: seq<string>)
    ensures Joined(names) == "" <==> names == []
  {
  }

  /** Splitting undoes joining. */
  lemma {:induction false} SegmentsOfJoined(names: seq<string>)
    requires NamesOk(names)
    ensures Segments(Skip(Joined(names))) == names
    decreases |names|
  {
    if names != [] {
      var n, rest := names[0], names[1..];
      var r := Joined(rest);
      SegmentsOfJoined(rest);
      assert Segments(n + r) == [n] + rest by {
        SegmentStep(n + r, n, r);
        EmptyPath(rest);
      }
      assert Skip(Joined(names)) == n + r by {
        assert (n + r)[0] == n[0] && n[0] in n;
        JoinedShape(names);
        SkipSlash(n + r);
      }
    }
  }

  lemma SegmentsOfPath(names: seq<string>)
    requires NamesOk(names)
    ensures Segments(Skip(PathOf(names))) == names
  {
    SegmentsOfJoined(names);
    SkipSlash("");
    assert "/" + "" == "/";
  }

  /** The copy pass writes the path from its end. */
  lemma {:induction false} JoinedBack(names: seq<string>, n: string)
    ensures Joined(names + [n]) == Joined(names) + "/" + n
    decreases |names|
  {
    if names == [] {
      assert names + [n] == [n] && [n][1..] == [];
    } else {
      JoinedBack(names[1..], n);
      assert (names + [n])[1..] == names[1..] + [n];
    }
  }

  // ---------------------------------------------------------------- the tree

  ghost predicate EntryOk(t: Tree, x: int) {
    x in t.entries ==> (
      var e := t.entries[x];
      && x != NONE
      && (x == t.vroot ==> e.parent == NONE && e.isRoot && !e.isSymlink && e.fromMount == NONE && e.children == [])
      && (x != t.vroot ==> e.parent in t.entries)
      && (x != t.vroot && e.isRoot ==> RootOk(t, x))
      && (!e.isRoot ==> e.parent in t.entries && x in t.entries[e.parent].children && NameOk(e.name))
      && (e.mount != NONE ==> e.mount in t.mounts && t.mounts[e.mount].entry == x && e.children == [])
      && (e.isSymlink ==> e.children == [] && e.mount == NONE))
  }

  /** The root of a mounted file system, itself not mounted on. */
  ghost predicate RootOk(t: Tree, x: int)
    requires x in t.entries
  {
    var e := t.entries[x];
    && e.fromMount != NONE && e.fromMount in t.mounts && t.mounts[e.fromMount] == MountPoint(e.parent, x)
    && e.mount == NONE && !e.isSymlink
  }

  ghost predicate ChildOk(t: Tree, p: int, c: int) {
    p in t.entries && c in t.entries[p].children ==> c in t.entries && t.entries[c].parent == p && !t.entries[c].isRoot
  }

  predicate Siblings(e: Entry, f: Entry) { !e.isRoot && !f.isRoot && e.parent == f.parent }

  /** No two children have the same name. */
  ghost predicate Unlike(t: Tree, c: int, d: int) {
    c in t.entries && d in t.entries && c != d && Siblings(t.entries[c], t.entries[d]) ==> t.entries[c].name != t.entries[d].name
  }

  ghost predicate MountOk(t: Tree, m: int) {
    m in t.mounts ==> (
      var p := t.mounts[m];
      && m != NONE && p.entry in t.entries && t.entries[p.entry].mount == m
      && p.root in t.entries && p.root != t.vroot && t.entries[p.root].isRoot && t.entries[p.root].fromMount == m)
  }

  ghost predicate Deeper(t: Tree, depth: map<int, nat>, x: int) {
    x in t.entries ==> x in depth && (t.entries[x].parent in depth ==> depth[t.entries[x].parent] < depth[x])
  }

  ghost predicate TreeOk(t: Tree, depth: map<int, nat>) {
    && t.vroot in t.entries
    && (forall x {:trigger EntryOk(t, x)} :: EntryOk(t, x))
    && (forall p, c {:trigger ChildOk(t, p, c)} :: ChildOk(t, p, c))
    && (forall c, d {:trigger Unlike(t, c, d)} :: Unlike(t, c, d))
    && (forall m {:trigger MountOk(t, m)} :: MountOk(t, m))
    && (forall x {:trigger Deeper(t, depth, x)} :: Deeper(t, depth, x))
  }

  /** From the root of a mount to the entry it is mounted on. */
  function Jump(t: Tree, x: int): int
    requires x in t.entries && (t.entries[x].isRoot && t.entries[x].fromMount != NONE ==> t.entries[x].fromMount in t.mounts)
  {
    if t.entries[x].isRoot && t.entries[x].fromMount != NONE then t.mounts[t.entries[x].fromMount].entry else x
  }

  lemma JumpOk(t: Tree, depth: map<int, nat>, x: int)
    requires TreeOk(t, depth) && x in t.entries
    ensures t.entries[x].isRoot && t.entries[x].fromMount != NONE ==> t.entries[x].fromMount in t.mounts
    ensures Jump(t, x) in t.entries && x in depth && Jump(t, x) in depth && depth[Jump(t, x)] <= depth[x]
    ensures t.entries[Jump(t, x)].parent == NONE <==> Jump(t, x) == t.vroot
    ensures Jump(t, x) != t.vroot ==> !t.entries[Jump(t, x)].isRoot
  {
    var p := t.entries[x].parent;
    assert EntryOk(t, x) && Deeper(t, depth, x) && EntryOk(t, p) && Deeper(t, depth, p) && EntryOk(t, NONE);
    if t.entries[x].isRoot && x != t.vroot {
      assert MountOk(t, t.entries[x].fromMount);
      assert p in t.entries && EntryOk(t, t.entries[p].parent);
    }
  }

  /** The names on the way from the root to an entry. */
  ghost function Names(t: Tree, depth: map<int, nat>, x: int): (names: seq<string>)
    requires TreeOk(t, depth) && x in t.entries && x in depth
    decreases depth[x]
  {
    JumpOk(t, depth, x);
    var e := Jump(t, x);
    if e == t.vroot then []
    else
      assert EntryOk(t, e) && Deeper(t, depth, e) && Deeper(t, depth, t.entries[e].parent);
      Names(t, depth, t.entries[e].parent) + [t.entries[e].name]
  }

  lemma {:induction false} NamesAreOk(t: Tree, depth: map<int, nat>, x: int)
    requires TreeOk(t, depth) && x in t.entries && x in depth
    ensures NamesOk(Names(t, depth, x))
    decreases depth[x]
  {
    JumpOk(t, depth, x);
    var e := Jump(t, x);
    if e != t.vroot {
      assert EntryOk(t, e) && Deeper(t, depth, e) && Deeper(t, depth, t.entries[e].parent);
      NamesAreOk(t, depth, t.entries[e].parent);
    }
  }

  // ---------------------------------------------------------------- the walk

  /** The first cached child of that name, NONE exactly if there is none. */
  function Find(t: Tree, cs: seq<int>, name: string): (c: int)
    ensures (forall d :: d in cs && d in t.entries ==> t.entries[d].name != name) ==> c == NONE
    ensures (exists d :: d in cs && d in t.entries && t.entries[d].name == name) ==> c in cs && c in t.entries && t.entries[c].name == name
  {
    if cs == [] then NONE
    else if cs[0] in t.entries && t.entries[cs[0]].name == name then cs[0]
    else Find(t, cs[1..], name)
  }

  /** `lookup_ventry` on cached entries. */
  function Lookup(t: Tree, cur: int, name: string): int
    requires cur in t.entries
  {
    if name == "." then cur
    else if name == ".." then
      var up := if t.entries[cur].isRoot && t.entries[cur].parent in t.entries then t.entries[cur].parent else cur;
      if t.entries[up].parent in t.entries then t.entries[up].parent else up
    else Find(t, t.entries[cur].children, name)
  }

  function Enter(t: Tree, x: int): int {
    if x in t.entries && t.entries[x].mount != NONE && t.entries[x].mount in t.mounts then t.mounts[t.entries[x].mount].root else x
  }

  /** Where the walk of the segments ends; NONE if an entry is not cached. */
  function WalkFrom(t: Tree, cur: int, segs: seq<string>): int
    decreases |segs|
  {
    if segs == [] || cur !in t.entries then cur else
      var next := Enter(t, Lookup(t, cur, segs[0]));
      if next in t.entries && t.entries[next].isSymlink then next else WalkFrom(t, next, segs[1..])
  }

  /** `vfs_acquire` down to the entry, without symbolic links. */
  function Walk(t: Tree, path: string): int { WalkFrom(t, Enter(t, t.vroot), Segments(Skip(path))) }

  lemma {:induction false} FindsChild(t: Tree, cs: seq<int>, c: int)
    requires c in cs && c in t.entries
    requires forall d :: d in cs && d in t.entries && d != c ==> t.entries[c].name != t.entries[d].name
    ensures Find(t, cs, t.entries[c].name) == c
    decreases |cs|
  {
    if cs[0] != c {
      FindsChild(t, cs[1..], c);
    }
  }

  /** The walk goes on from where it has come to. */
  lemma {:induction false} WalkThen(t: Tree, cur: int, segs: seq<string>, more: seq<string>, p: int)
    requires WalkFrom(t, cur, segs) == p && p in t.entries && !t.entries[p].isSymlink && NONE !in t.entries
    ensures WalkFrom(t, cur, segs + more) == WalkFrom(t, p, more)
    decreases |segs|
  {
    if segs == [] {
      assert segs + more == more;
    } else {
      assert cur in t.entries;
      assert (segs + more)[1..] == segs[1..] + more;
      WalkThen(t, Enter(t, Lookup(t, cur, segs[0])), segs[1..], more, p);
    }
  }

  /** One more segment. */
  lemma WalkOneMore(t: Tree, cur: int, segs: seq<string>, name: string, p: int)
    requires WalkFrom(t, cur, segs) == p && p in t.entries && !t.entries[p].isSymlink && NONE !in t.entries
    ensures WalkFrom(t, cur, segs + [name]) == Enter(t, Lookup(t, p, name))
  {
    WalkThen(t, cur, segs, [name], p);
    assert [name][1..] == [];
  }

  /** Looking a child up by its name finds it. */
  lemma LookupFindsChild(t: Tree, depth: map<int, nat>, c: int)
    requires TreeOk(t, depth) && c in t.entries && !t.entries[c].isRoot
    ensures t.entries[c].parent in t.entries && Lookup(t, t.entries[c].parent, t.entries[c].name) == c
  {
    assert EntryOk(t, c);
    var p := t.entries[c].parent;
    forall d | d in t.entries[p].children && d in t.entries && d != c ensures t.entries[c].name != t.entries[d].name {
      assert ChildOk(t, p, d) && Unlike(t, c, d);
    }
    FindsChild(t, t.entries[p].children, c);
  }

  /** A parent is neither a symbolic link nor mounted on. */
  lemma ParentIsPlain(t: Tree, depth: map<int, nat>, c: int)
    requires TreeOk(t, depth) && c in t.entries && !t.entries[c].isRoot
    ensures t.entries[c].parent in t.entries && t.entries[t.entries[c].parent].mount == NONE && !t.entries[t.entries[c].parent].isSymlink
  {
    assert EntryOk(t, c) && EntryOk(t, t.entries[c].parent);
  }

  /** Entering what an entry jumps to leads back to it. */
  lemma EnterUndoesJump(t: Tree, depth: map<int, nat>, x: int)
    requires TreeOk(t, depth) && x in t.entries && t.entries[x].mount == NONE && t.entries[t.vroot].mount != NONE
    ensures t.entries[x].isRoot && t.entries[x].fromMount != NONE ==> t.entries[x].fromMount in t.mounts
    ensures Enter(t, Jump(t, x)) == x
  {
    assert EntryOk(t, x);
    if t.entries[x].isRoot { assert MountOk(t, t.entries[x].fromMount); }
  }

  /** Walking the names of an entry leads to it, across any nesting of mounts. */
  lemma {:induction false} NamesLeadBack(t: Tree, depth: map<int, nat>, x: int)
    requires TreeOk(t, depth) && x in t.entries && x in depth
    requires t.entries[x].mount == NONE && !t.entries[x].isSymlink && t.entries[t.vroot].mount != NONE
    ensures WalkFrom(t, Enter(t, t.vroot), Names(t, depth, x)) == x
    decreases depth[x]
  {
    JumpOk(t, depth, x);
    EnterUndoesJump(t, depth, x);
    var e := Jump(t, x);
    if e != t.vroot {
      var p := t.entries[e].parent;
      ParentIsPlain(t, depth, e);
      assert Deeper(t, depth, e) && Deeper(t, depth, p) && EntryOk(t, NONE);
      NamesLeadBack(t, depth, p);
      WalkOneMore(t, Enter(t, t.vroot), Names(t, depth, p), t.entries[e].name, p);
      LookupFindsChild(t, depth, e);
    }
  }

  /** Walking the real path of an entry gives the entry. */
  lemma WalkUndoesRealPath(t: Tree, depth: map<int, nat>, x: int)
    requires TreeOk(t, depth) && x in t.entries && x in depth
    requires t.entries[x].mount == NONE && !t.entries[x].isSymlink && t.entries[t.vroot].mount != NONE
    ensures Walk(t, PathOf(Names(t, depth, x))) == x
  {
    NamesAreOk(t, depth, x);
    SegmentsOfPath(Names(t, depth, x));
    NamesLeadBack(t, depth, x);
  }

  /** An entry that is mounted on shares its path with the root mounted there, which hides it. */
  lemma CoveredLeadsToMount(t: Tree, depth: map<int, nat>, x: int)
    requires TreeOk(t, depth) && x in t.entries && x in depth && t.entries[x].mount != NONE && t.entries[t.vroot].mount != NONE
    ensures t.entries[x].mount in t.mounts && Walk(t, PathOf(Names(t, depth, x))) == t.mounts[t.entries[x].mount].root != x
  {
    assert EntryOk(t, x) && MountOk(t, t.entries[x].mount);
    var r := t.mounts[t.entries[x].mount].root;
    assert EntryOk(t, r) && Deeper(t, depth, r);
    WalkUndoesRealPath(t, depth, r);
    assert Jump(t, r) == x == Jump(t, x);
  }

  // ---------------------------------------------------------------- dots, slashes and missing names

  /** A path is split at its slashes, however many there are in a row. */
  lemma {:induction false} SegmentsConcat(a: string, b: string)
    ensures Segments(Skip(a + "/" + b)) == Segments(Skip(a)) + Segments(Skip(b))
    decreases |a|
  {
    if a == "" {
      assert a + "/" + b == "/" + b;
      LeadingSlash(b);
    } else {
      var i := if a[0] == '/' then 1 else Slash(a);
      var n, r := a[..i], a[i..];
      SegmentsConcat(r, b);
      assert a == n + r;
      Associate(n, r, "/", b);
      if a[0] == '/' {
        assert n == "/";
        LeadingSlash(r);
        LeadingSlash(r + "/" + b);
      } else {
        FirstSegment(a, n, r);
        FirstSegment(a + "/" + b, n, r + "/" + b);
        AppendTo(n, Segments(Skip(r)), Segments(Skip(b)));
      }
    }
  }

  lemma Associate(n: string, r: string, s: string, b: string)
    ensures (n + r) + s + b == n + (r + s + b)
  {
  }

  lemma LeadingSlash(p: string)
    ensures Skip("/" + p) == Skip(p)
  {
    assert ("/" + p)[1..] == p;
  }

  lemma AppendTo(n: string, a: seq<string>, b: seq<string>)
    ensures [n] + (a + b) == [n] + a + b
  {
  }

  lemma FirstSegment(p: string, n: string, r: string)
    requires p == n + r && n != "" && '/' !in n && (r == "" || r[0] == '/')
    ensures Skip(p) == p && Segments(Skip(p)) == [n] + Segments(Skip(r))
  {
    SegmentStep(p, n, r);
    assert r == "" ==> Segments(Skip(r)) == [];
  }

  lemma SlashAtEnd(a: string)
    ensures Segments(Skip(a + "/")) == Segments(Skip(a))
  {
    SegmentsConcat(a, "");
    assert a + "/" + "" == a + "/" && Segments(Skip("")) == [];
  }

  /** Repeated slashes count as one, and one at the end as none. */
  lemma SlashesCollapse(t: Tree, a: string, b: string)
    ensures Walk(t, a + "//" + b) == Walk(t, a + "/" + b) && Walk(t, a + "/") == Walk(t, a)
  {
    SlashAtEnd(a);
    SegmentsConcat(a, b);
    SegmentsConcat(a + "/", b);
    assert (a + "/") + "/" + b == a + "//" + b;
  }

  /** A walk never stands on an entry that is mounted on. */
  lemma EnterLands(t: Tree, depth: map<int, nat>, x: int)
    requires TreeOk(t, depth)
    ensures Enter(t, x) in t.entries ==> t.entries[Enter(t, x)].mount == NONE
  {
    assert EntryOk(t, x);
    if x in t.entries && t.entries[x].mount != NONE {
      assert MountOk(t, t.entries[x].mount) && EntryOk(t, t.mounts[t.entries[x].mount].root);
    }
  }

  lemma {:induction false} DotSegment(t: Tree, depth: map<int, nat>, cur: int, a: seq<string>, b: seq<string>)
    requires TreeOk(t, depth) && (cur in t.entries ==> t.entries[cur].mount == NONE && !t.entries[cur].isSymlink)
    ensures WalkFrom(t, cur, a + ["."] + b) == WalkFrom(t, cur, a + b)
    decreases |a|
  {
    if a == [] {
      assert a + ["."] + b == ["."] + b && a + b == b && (["."] + b)[1..] == b;
    } else if cur in t.entries {
      var next := Enter(t, Lookup(t, cur, a[0]));
      EnterLands(t, depth, Lookup(t, cur, a[0]));
      assert (a + ["."] + b)[1..] == a[1..] + ["."] + b && (a + b)[1..] == a[1..] + b;
      if !(next in t.entries && t.entries[next].isSymlink) { DotSegment(t, depth, next, a[1..], b); }
    }
  }

  lemma RootIsPlain(t: Tree, depth: map<int, nat>)
    requires TreeOk(t, depth) && t.entries[t.vroot].mount != NONE
    ensures var r := Enter(t, t.vroot); r in t.entries && t.entries[r].mount == NONE && !t.entries[r].isSymlink
  {
    var m := t.entries[t.vroot].mount;
    assert EntryOk(t, t.vroot) && MountOk(t, m);
    assert EntryOk(t, t.mounts[m].root) && RootOk(t, t.mounts[m].root);
    assert Enter(t, t.vroot) == t.mounts[m].root;
  }

  lemma ThreeParts(a: string, n: string, b: string)
    ensures Segments(Skip(a + "/" + n + "/" + b)) == Segments(Skip(a)) + Segments(Skip(n)) + Segments(Skip(b))
  {
    SegmentsConcat(a, n);
    SegmentsConcat(a + "/" + n, b);
  }

  lemma DotIsSegment(dot: string)
    requires dot == "." || dot == ".."
    ensures Segments(Skip(dot)) == [dot]
  {
    assert dot + "" == dot && Skip(dot) == dot;
    SegmentStep(dot, dot, "");
  }

  /** A segment "." anywhere in a path leaves the walk where it is. */
  lemma DotStays(t: Tree, depth: map<int, nat>, a: string, b: string)
    requires TreeOk(t, depth) && t.entries[t.vroot].mount != NONE
    ensures Walk(t, a + "/" + "." + "/" + b) == Walk(t, a + "/" + b)
  {
    RootIsPlain(t, depth);
    SegmentsConcat(a, b);
    DotIsSegment(".");
    ThreeParts(a, ".", b);
    DotSegment(t, depth, Enter(t, t.vroot), Segments(Skip(a)), Segments(Skip(b)));
  }

  /** Where no cached child has the name, the walk ends without an entry, whatever follows. */
  lemma MissingEnds(t: Tree, depth: map<int, nat>, a: string, name: string, b: string, p: int)
    requires TreeOk(t, depth) && Walk(t, a) == p && p in t.entries && !t.entries[p].isSymlink && NameOk(name)
    requires forall d :: d in t.entries[p].children && d in t.entries ==> t.entries[d].name != name
    ensures Walk(t, a + "/" + name + "/" + b) == NONE
  {
    assert EntryOk(t, NONE);
    WalkToName(t, a, name, b, p);
    assert ([name] + Segments(Skip(b)))[1..] == Segments(Skip(b));
  }

  /** The walk stops at a symbolic link, whatever follows. */
  lemma SymlinkEnds(t: Tree, depth: map<int, nat>, a: string, b: string, p: int, c: int)
    requires TreeOk(t, depth) && Walk(t, a) == p && p in t.entries && !t.entries[p].isSymlink
    requires c in t.entries[p].children && c in t.entries && t.entries[c].isSymlink
    ensures Walk(t, a + "/" + t.entries[c].name + "/" + b) == c
  {
    assert EntryOk(t, NONE) && EntryOk(t, c) && ChildOk(t, p, c);
    WalkToName(t, a, t.entries[c].name, b, p);
    LookupFindsChild(t, depth, c);
  }

  lemma WalkToName(t: Tree, a: string, name: string, b: string, p: int)
    requires Walk(t, a) == p && p in t.entries && !t.entries[p].isSymlink && NONE !in t.entries && NameOk(name)
    ensures Walk(t, a + "/" + name + "/" + b) == WalkFrom(t, p, [name] + Segments(Skip(b)))
  {
    SegmentsAround(a, name, b);
    WalkThenName(t, Enter(t, t.vroot), Segments(Skip(a)), name, Segments(Skip(b)), p);
  }

  lemma SegmentsAround(a: string, name: string, b: string)
    requires NameOk(name)
    ensures Segments(Skip(a + "/" + name + "/" + b)) == Segments(Skip(a)) + [name] + Segments(Skip(b))
  {
    ThreeParts(a, name, b);
    NameIsSegment(name);
  }

  lemma WalkThenName(t: Tree, cur: int, segs: seq<string>, name: string, more: seq<string>, p: int)
    requires WalkFrom(t, cur, segs) == p && p in t.entries && !t.entries[p].isSymlink && NONE !in t.entries
    ensures WalkFrom(t, cur, segs + [name] + more) == WalkFrom(t, p, [name] + more)
  {
    assert segs + [name] + more == segs + ([name] + more);
    WalkThen(t, cur, segs, [name] + more, p);
  }

  lemma NameIsSegment(name: string)
    requires NameOk(name)
    ensures Segments(Skip(name)) == [name]
  {
    assert name[0] in name;
    assert name + "" == name;
    SegmentStep(name, name, "");
  }

  /** What ".." leads to: the entry's parent; for the root of a mounted file system the parent of the
      entry that it covers; and for the root of all, that root itself. */
  ghost function Above(t: Tree, depth: map<int, nat>, x: int): int
    requires TreeOk(t, depth) && x in t.entries
  {
    JumpOk(t, depth, x);
    if Jump(t, x) == t.vroot then Enter(t, t.vroot) else t.entries[Jump(t, x)].parent
  }

  lemma DotDotGoesUp(t: Tree, depth: map<int, nat>, a: string, x: int)
    requires TreeOk(t, depth) && t.entries[t.vroot].mount != NONE && Walk(t, a) == x && x in t.entries && !t.entries[x].isSymlink
    ensures Walk(t, a + "/" + "..") == Above(t, depth, x)
  {
    assert EntryOk(t, NONE);
    SegmentsConcat(a, "..");
    DotIsSegment("..");
    WalkOneMore(t, Enter(t, t.vroot), Segments(Skip(a)), "..", x);
    UpIsAbove(t, depth, x);
  }

  lemma UpIsAbove(t: Tree, depth: map<int, nat>, x: int)
    requires TreeOk(t, depth) && t.entries[t.vroot].mount != NONE && x in t.entries
    ensures Enter(t, Lookup(t, x, "..")) == Above(t, depth, x)
  {
    JumpOk(t, depth, x);
    var e := Jump(t, x);
    assert EntryOk(t, x) && EntryOk(t, e) && EntryOk(t, NONE) && EntryOk(t, t.vroot);
    if t.entries[x].isRoot && x != t.vroot { assert MountOk(t, t.entries[x].fromMount); }
    if e != t.vroot { ParentIsPlain(t, depth, e); }
  }

  // ---------------------------------------------------------------- growing the tree

  /** `attach_ventry`: a new entry becomes the first child of `p`. */
  function Attached(t: Tree, p: int, c: int, name: string, isSymlink: bool, from: int): Tree
    requires p in t.entries
  {
    var e := Entry(p, [], name, false, isSymlink, from, NONE);
    t.(entries := t.entries[p := t.entries[p].(children := [c] + t.entries[p].children)][c := e])
  }

  ghost predicate MayAttach(t: Tree, p: int, c: int, name: string) {
    && p in t.entries && p != t.vroot && t.entries[p].mount == NONE && !t.entries[p].isSymlink
    && c !in t.entries && c != NONE && NameOk(name) && Find(t, t.entries[p].children, name) == NONE
  }

  lemma {:induction false} NotFound(t: Tree, cs: seq<int>, name: string, d: int)
    requires Find(t, cs, name) == NONE && d in cs && d in t.entries && NONE !in t.entries
    ensures t.entries[d].name != name
    decreases |cs|
  {
    if cs[0] != d { NotFound(t, cs[1..], name, d); }
  }

  lemma AttachKeeps(t: Tree, depth: map<int, nat>, p: int, c: int, name: string, isSymlink: bool, from: int)
    requires TreeOk(t, depth) && MayAttach(t, p, c, name) && p in depth
    ensures TreeOk(Attached(t, p, c, name, isSymlink, from), depth[c := depth[p] + 1])
  {
    var u, deep := Attached(t, p, c, name, isSymlink, from), depth[c := depth[p] + 1];
    assert EntryOk(t, NONE) && EntryOk(t, p) && Deeper(t, depth, p);
    forall x ensures EntryOk(u, x) { assert EntryOk(t, x); }
    forall q, d ensures ChildOk(u, q, d) { assert ChildOk(t, q, d); }
    forall a, b ensures Unlike(u, a, b) { AttachUnlike(t, depth, p, c, name, isSymlink, from, a, b); }
    forall m ensures MountOk(u, m) { assert MountOk(t, m); }
    forall x ensures Deeper(u, deep, x) { assert Deeper(t, depth, x) && EntryOk(t, x); }
  }

  lemma AttachUnlike(t: Tree, depth: map<int, nat>, p: int, c: int, name: string, isSymlink: bool, from: int, a: int, b: int)
    requires TreeOk(t, depth) && MayAttach(t, p, c, name)
    ensures Unlike(Attached(t, p, c, name, isSymlink, from), a, b)
  {
    assert Unlike(t, a, b) && EntryOk(t, a) && EntryOk(t, b) && EntryOk(t, NONE);
    if a == c && b in t.entries && t.entries[b].parent == p && !t.entries[b].isRoot { NotFound(t, t.entries[p].children, name, b); }
    if b == c && a in t.entries && t.entries[a].parent == p && !t.entries[a].isRoot { NotFound(t, t.entries[p].children, name, a); }
  }

  /** `vfs_mount`: a new root entry below `v`, and the mount point between them. */
  function Mounted(t: Tree, v: int, m: int, r: int): Tree
    requires v in t.entries
  {
    var root := Entry(v, [], "/", true, false, m, NONE);
    t.(entries := t.entries[v := t.entries[v].(mount := m)][r := root], mounts := t.mounts[m := MountPoint(v, r)])
  }

  ghost predicate MayMount(t: Tree, v: int, m: int, r: int) {
    && v in t.entries && t.entries[v].mount == NONE && t.entries[v].children == [] && !t.entries[v].isSymlink
    && (v == t.vroot || !t.entries[v].isRoot) && m !in t.mounts && m != NONE && r !in t.entries && r != NONE
  }

  lemma MountKeeps(t: Tree, depth: map<int, nat>, v: int, m: int, r: int)
    requires TreeOk(t, depth) && MayMount(t, v, m, r) && v in depth
    ensures TreeOk(Mounted(t, v, m, r), depth[r := depth[v] + 1])
  {
    var u, deep := Mounted(t, v, m, r), depth[r := depth[v] + 1];
    assert EntryOk(t, NONE) && EntryOk(t, v) && Deeper(t, depth, v);
    forall x ensures EntryOk(u, x) { assert EntryOk(t, x); }
    forall q, d ensures ChildOk(u, q, d) { assert ChildOk(t, q, d); }
    forall a, b ensures Unlike(u, a, b) { assert Unlike(t, a, b); }
    forall k ensures MountOk(u, k) { assert MountOk(t, k); }
    forall x ensures Deeper(u, deep, x) { assert Deeper(t, depth, x) && EntryOk(t, x); }
  }

  /** Every entry and mount of `t` is in `u`, at the same place under the same name. */
  ghost predicate Grows(t: Tree, u: Tree) {
    && u.vroot == t.vroot
    && (forall x {:trigger SamePlace(t, u, x)} :: SamePlace(t, u, x))
    && (forall m {:trigger m in u.mounts} :: m in t.mounts ==> m in u.mounts && u.mounts[m] == t.mounts[m])
  }

  ghost predicate SamePlace(t: Tree, u: Tree, x: int) {
    x in t.entries ==> x in u.entries && var e, f := t.entries[x], u.entries[x];
      e.parent == f.parent && e.name == f.name && e.isRoot == f.isRoot && e.fromMount == f.fromMount
  }

  lemma {:induction false} NamesStay(t: Tree, depth: map<int, nat>, u: Tree, deep: map<int, nat>, x: int)
    requires TreeOk(t, depth) && TreeOk(u, deep) && Grows(t, u) && x in t.entries
    ensures x in depth && x in deep && x in u.entries && Names(u, deep, x) == Names(t, depth, x)
    decreases if x in depth then depth[x] else 0
  {
    assert Deeper(t, depth, x) && SamePlace(t, u, x) && Deeper(u, deep, x);
    JumpOk(t, depth, x);
    JumpOk(u, deep, x);
    var e := Jump(t, x);
    assert Jump(u, x) == e && SamePlace(t, u, e);
    if e != t.vroot {
      assert EntryOk(t, e) && Deeper(t, depth, e) && Deeper(t, depth, t.entries[e].parent) && EntryOk(t, NONE);
      assert EntryOk(u, e) && Deeper(u, deep, e) && Deeper(u, deep, t.entries[e].parent);
      NamesStay(t, depth, u, deep, t.entries[e].parent);
    }
  }

  /** A new child is found under its name below its parent, and every other entry where it was. */
  lemma AttachTakesEffect(t: Tree, depth: map<int, nat>, p: int, c: int, name: string, from: int, x: int)
    requires TreeOk(t, depth) && MayAttach(t, p, c, name) && p in depth && t.entries[t.vroot].mount != NONE
    requires x in t.entries && t.entries[x].mount == NONE && !t.entries[x].isSymlink
    ensures var u := Attached(t, p, c, name, false, from);
      && Walk(u, PathOf(Names(t, depth, p) + [name])) == c
      && x in depth && Walk(u, PathOf(Names(t, depth, x))) == x
  {
    var u, deep := Attached(t, p, c, name, false, from), depth[c := depth[p] + 1];
    AttachKeeps(t, depth, p, c, name, false, from);
    assert Grows(t, u);
    NamesStay(t, depth, u, deep, p);
    NamesStay(t, depth, u, deep, x);
    WalkUndoesRealPath(u, deep, x);
    WalkUndoesRealPath(u, deep, c);
    assert Jump(u, c) == c && EntryOk(t, p) && EntryOk(t, c);
  }

  /** After mounting on `v` its path leads to the new root, and every other entry is where it was. */
  lemma MountTakesEffect(t: Tree, depth: map<int, nat>, v: int, m: int, r: int, x: int)
    requires TreeOk(t, depth) && MayMount(t, v, m, r) && v in depth && (v == t.vroot || t.entries[t.vroot].mount != NONE)
    requires x in t.entries && x != v && t.entries[x].mount == NONE && !t.entries[x].isSymlink
    ensures var u := Mounted(t, v, m, r);
      && Walk(u, PathOf(Names(t, depth, v))) == r
      && x in depth && Walk(u, PathOf(Names(t, depth, x))) == x
  {
    var u, deep := Mounted(t, v, m, r), depth[r := depth[v] + 1];
    MountKeeps(t, depth, v, m, r);
    assert Grows(t, u);
    NamesStay(t, depth, u, deep, v);
    NamesStay(t, depth, u, deep, x);
    WalkUndoesRealPath(u, deep, x);
    CoveredLeadsToMount(u, deep, v);
  }

  /** The joined names of an entry; nothing for no entry. */
  ghost function Prefix(t: Tree, depth: map<int, nat>, e: int): string {
    if TreeOk(t, depth) && e in t.entries && e in depth then Joined(Names(t, depth, e)) else ""
  }

  // ---------------------------------------------------------------- the code

  lemma Regroup(a: string, b: string, c: string)
    ensures a + (b + c) == a + b + c
  {
  }

  class FileTree {
    const vroot: int
    var entries: map<int, Entry>
    var mounts: map<int, MountPoint>

    ghost var depth: map<int, nat>

    function T(): Tree
      reads this
    {
      Tree(vroot, entries, mounts)
    }

    ghost predicate Valid()
      reads this
    {
      TreeOk(T(), depth)
    }

    constructor (root: int)
      requires root != NONE
      ensures Valid() && T() == Tree(root, map[root := Entry(NONE, [], "/", true, false, NONE, NONE)], map[])
    {
      vroot := root;
      entries := map[root := Entry(NONE, [], "/", true, false, NONE, NONE)];
      mounts := map[];
      depth := map[root := 0];
    }

    /** Caches an entry the file system knows; `c` is where it is stored. */
    method Attach(p: int, c: int, name: string, isSymlink: bool, from: int)
      requires Valid() && MayAttach(T(), p, c, name)
      modifies this
      ensures Valid() && T() == Attached(old(T()), p, c, name, isSymlink, from)
    {
      assert Deeper(T(), depth, p);
      AttachKeeps(T(), depth, p, c, name, isSymlink, from);
      depth := depth[c := depth[p] + 1];
      entries := entries[p := entries[p].(children := [c] + entries[p].children)];
      entries := entries[c := Entry(p, [], name, false, isSymlink, from, NONE)];
    }

    /** Fails, changing nothing, on an entry that is mounted on or has children. */
    method Mount(v: int, m: int, r: int) returns (rc: int)
      requires Valid() && v in entries && !entries[v].isSymlink && (v == vroot || !entries[v].isRoot)
      requires m !in mounts && m != NONE && r !in entries && r != NONE
      modifies this
      ensures Valid() && (rc == 0 <==> old(entries)[v].mount == NONE && old(entries)[v].children == [])
      ensures T() == if rc == 0 then Mounted(old(T()), v, m, r) else old(T())
    {
      if entries[v].mount != NONE || entries[v].children != [] {
        return -1;
      }
      assert Deeper(T(), depth, v);
      MountKeeps(T(), depth, v, m, r);
      depth := depth[r := depth[v] + 1];
      entries := entries[v := entries[v].(mount := m)];
      entries := entries[r := Entry(v, [], "/", true, false, m, NONE)];
      mounts := mounts[m := MountPoint(v, r)];
      return 0;
    }

    /** One step up: the name that is added, and the entry to go on with. */
    method Up(e: int) returns (part: string, next: int)
      requires Valid() && e in entries
      ensures Prefix(T(), depth, e) == Prefix(T(), depth, next) + part
      ensures if next == NONE then Prefix(T(), depth, next) == "" else next in entries
      ensures e in depth && (next != NONE ==> next in depth && depth[next] < depth[e])
    {
      JumpOk(T(), depth, e);
      var j := Jump(T(), e);
      assert EntryOk(T(), j) && EntryOk(T(), NONE) && Deeper(T(), depth, j) && Deeper(T(), depth, entries[j].parent);
      part, next := "", entries[j].parent;
      if entries[j].parent != NONE {
        part := "/" + entries[j].name;
        JoinedBack(Names(T(), depth, next), entries[j].name);
        assert Prefix(T(), depth, next) + part == Prefix(T(), depth, next) + "/" + entries[j].name;
      }
    }

    /** The length pass. */
    method RealSize(x: int) returns (size: nat)
      requires Valid() && x in entries
      ensures size == |Prefix(T(), depth, x)| + 1
    {
      size := 1;
      var e := x;
      assert Deeper(T(), depth, x) && EntryOk(T(), x);
      while e != NONE
        invariant e != NONE ==> e in entries && e in depth
        invariant size + |Prefix(T(), depth, e)| == |Prefix(T(), depth, x)| + 1 && (e == NONE ==> Prefix(T(), depth, e) == "")
        decreases if e == NONE then 0 else depth[e] + 1
      {
        var part, next := Up(e);
        size := size + |part|;
        e := next;
      }
    }

    /** `vfs_real_path`: fails if the buffer is too small, else writes the path and a final NUL.  The
        copy pass writes exactly what the length pass counted. */
    method RealPath(x: int, buf: array<char>) returns (rc: int)
      requires Valid() && x in entries
      modifies buf
      ensures x in depth && (rc == 0 <==> |PathOf(Names(T(), depth, x))| < buf.Length)
      ensures rc == 0 ==> var p := PathOf(Names(T(), depth, x)); buf[..|p|] == p && buf[|p|] == '\0'
      ensures rc != 0 ==> buf[..] == old(buf[..])
    {
      assert Deeper(T(), depth, x);
      EmptyPath(Names(T(), depth, x));
      var size := RealSize(x);
      if size > buf.Length {
        return -1;
      }
      if size == 1 {
        if buf.Length < 2 {
          return -1;
        }
        buf[0], buf[1] := '/', '\0';
        return 0;
      }
      buf[size - 1] := '\0';
      Copy(x, buf, size - 1);
      return 0;
    }

    static method Write(buf: array<char>, pos: nat, part: string, ghost end: nat)
      requires pos + |part| <= end < buf.Length
      modifies buf
      ensures buf[pos..end] == part + old(buf[pos + |part|..end]) && buf[end] == old(buf[end])
    {
      forall k | 0 <= k < |part| { buf[pos + k] := part[k]; }
    }

    /** The copy pass, from the end. */
    method Copy(x: int, buf: array<char>, end: nat)
      requires Valid() && x in entries && end == |Prefix(T(), depth, x)| < buf.Length
      modifies buf
      ensures buf[..end] == Prefix(T(), depth, x) && buf[end] == old(buf[end])
    {
      var e, pos := x, end;
      ghost var path, last := Prefix(T(), depth, x), buf[end];
      assert Deeper(T(), depth, x) && EntryOk(T(), x);
      ghost var left := path;
      while e != NONE
        invariant Valid() && (e != NONE ==> e in entries && e in depth && left == Prefix(T(), depth, e))
        invariant pos == |left| <= end && path == left + buf[pos..end] && (e == NONE ==> left == "") && buf[end] == last
        decreases if e == NONE then 0 else depth[e] + 1
      {
        e, pos, left := CopyOne(e, buf, pos, end, path);
      }
    }

    /** One name, in front of what is there already. */
    method CopyOne(e: int, buf: array<char>, pos: nat, ghost end: nat, ghost path: string)
      returns (next: int, pos': nat, ghost left: string)
      requires Valid() && e in entries && pos == |Prefix(T(), depth, e)| && pos <= end < buf.Length
      requires path == Prefix(T(), depth, e) + buf[pos..end]
      modifies buf
      ensures e in depth && (next != NONE ==> next in entries && next in depth && depth[next] < depth[e])
      ensures left == Prefix(T(), depth, next) && pos' == |left| <= end && (next == NONE ==> left == "")
      ensures path == left + buf[pos'..end] && buf[end] == old(buf[end])
    {
      var part;
      part, next := Up(e);
      left := Prefix(T(), depth, next);
      ghost var done := buf[pos..end];
      pos' := pos - |part|;
      Write(buf, pos', part, end);
      Regroup(left, part, done);
    }

    /** The walk of `vfs_acquire`, without symbolic links; NONE if an entry is not cached. */
    method WalkPath(path: string) returns (r: int)
      requires Valid() && entries[vroot].mount != NONE
      ensures r == Walk(T(), path)
    {
      var cur := path;
      while cur != "" && cur[0] == '/'
        invariant Skip(cur) == Skip(path)
        decreases |cur|
      {
        cur := cur[1..];
      }
      assert Skip(cur) == cur;
      r := Enter(T(), vroot);
      while cur != "" && r in entries
        invariant (cur == "" || cur[0] != '/') && WalkFrom(T(), r, Segments(cur)) == Walk(T(), path)
        decreases |cur|
      {
        var n := Slash(cur);
        var seg := cur[..n];
        assert n == |cur| ==> seg == cur;
        var rest := if n == |cur| then "" else Skip(cur[n..]);
        assert Segments(cur) == [seg] + Segments(rest);
        assert ([seg] + Segments(rest))[1..] == Segments(rest);
        r := Enter(T(), Lookup(T(), r, seg));
        if r in entries && entries[r].isSymlink {
          return;
        }
        cur := rest;
      }
    }
  }
}
