/** The radix tree of page tables as a value: where every table hangs, and what each entry says.

    Virtual and physical pages are numbered.  At each level the entries of all possible tables are
    numbered through, so the entry for page `v` at a level is `Num(v, level)`, and it is found in
    the table for entry `Num(v, level) / fan` one level up, at index `Num(v, level) % fan`. */
module PageTree {
  import opened Pow2

  datatype Entry = Invalid | Leaf(frame: nat) | Table(next: nat)

  /** `levels` tables are walked, each with `fan` entries; `blocks[l - 1]` says whether an entry at
      level `l` may map a whole block. */
  datatype Geometry = Geometry(levels: nat, fan: nat, blocks: seq<bool>) {

    predicate Ok() { levels > 0 && fan > 1 && |blocks| == levels && blocks[levels - 1] }

    /** The number of pages below one entry; for level 0, the number of pages there are. */
    function Span(l: nat): (n: nat)
      requires Ok() && l <= levels
      ensures n > 0
      decreases levels - l
    {
      if l == levels then 1 else
        var m := Span(l + 1);
        MulPositive(fan, m);
        fan * m
    }

    function Num(v: nat, l: nat): nat
      requires Ok() && l <= levels
      decreases levels - l
    {
      if l == levels then v else Num(v, l + 1) / fan
    }

    /** The entry number is the quotient by the span. */
    lemma {:induction false} NumIsDiv(v: nat, l: nat)
      requires Ok() && l <= levels
      ensures Num(v, l) == v / Span(l)
      decreases levels - l
    {
      if l < levels {
        NumIsDiv(v, l + 1);
        DivDiv(v, Span(l + 1), fan);
      }
    }

    lemma NumAtTop(v: nat)
      requires Ok() && v < Span(0)
      ensures Num(v, 0) == 0
    {
      NumIsDiv(v, 0);
      DivModUnique(v, Span(0), 0, v);
    }

    /** The first page below an entry. */
    function First(e: nat, l: nat): nat
      requires Ok() && l <= levels
    {
      Span(l) * e
    }

    lemma FirstIsBelow(e: nat, l: nat)
      requires Ok() && l <= levels
      ensures Num(First(e, l), l) == e && First(e, l) % Span(l) == 0
    {
      NumIsDiv(First(e, l), l);
      DivModUnique(First(e, l), Span(l), e, 0);
    }

    /** An aligned block is exactly the pages below one entry. */
    lemma BlockIsEntry(v: nat, w: nat, l: nat)
      requires Ok() && l <= levels && v % Span(l) == 0
      ensures Num(w, l) == Num(v, l) <==> v <= w < v + Span(l)
      ensures Num(w, l) == Num(v, l) ==> w % Span(l) == w - v
      ensures First(Num(v, l), l) == v
    {
      NumIsDiv(v, l);
      NumIsDiv(w, l);
      SameQuotient(v, w, Span(l));
    }
  }

  lemma MulPositive(a: nat, b: nat)
    requires a > 0 && b > 0
    ensures a * b > 0
  {
    MulLe(a, 1, b);
  }

  lemma SameQuotient(v: nat, w: nat, m: nat)
    requires m > 0 && v % m == 0
    ensures w / m == v / m <==> v <= w < v + m
    ensures w / m == v / m ==> w % m == w - v
    ensures m * (v / m) == v
  {
    assert w == m * (w / m) + w % m;
    if v <= w < v + m { DivModUnique(w, m, v / m, w - v); }
  }

  lemma DivDiv(v: nat, m: nat, f: nat)
    requires m > 0 && f > 0 && f * m > 0
    ensures (v / m) / f == v / (f * m)
  {
    var a, r := v / m, v % m;
    var b, s := a / f, a % f;
    assert v == m * a + r && a == f * b + s;
    assert m * a == m * (f * b) + m * s;
    assert m * (f * b) == (f * m) * b;
    MulLe(m, s, f - 1);
    assert m * (f - 1) == f * m - m;
    MulLe(m, 0, s);
    DivModUnique(v, f * m, b, m * s + r);
  }

  lemma ByParts(e: nat, d: nat, f: nat)
    requires f > 0 && e / f == d / f && e % f == d % f
    ensures e == d
  {
    assert e == f * (e / f) + e % f && d == f * (d / f) + d % f;
  }

  // ---------------------------------------------------------------- the tree

  /** A table's place: its level, and the number of the entry above that points to it. */
  datatype Pos = Pos(level: nat, num: nat)

  const NOWHERE := Pos(0, 0)

  const ROOT := Pos(1, 0)

  /** The tables in memory by frame, and where each one hangs. */
  datatype Tree = Tree(g: Geometry, root: nat, at: map<Pos, nat>, tables: map<nat, seq<Entry>>) {

    ghost predicate Hangs(p: Pos) { p in at && at[p] in tables && g.fan > 0 && |tables[at[p]]| == g.fan }

    ghost function EntryAt(l: nat, e: nat): Entry
      requires g.Ok()
    {
      var p := Pos(l, e / g.fan);
      if Hangs(p) then tables[at[p]][e % g.fan] else Invalid
    }

    /** The frame a leaf maps, 0 if there is none. */
    ghost function LeafAt(l: nat, e: nat): nat
      requires g.Ok()
    {
      if EntryAt(l, e).Leaf? then EntryAt(l, e).frame else 0
    }

    ghost predicate TableOk(p: Pos) {
      p in at ==> 1 <= p.level <= g.levels && Hangs(p) && (p.level == 1 ==> p == ROOT)
    }

    ghost predicate Distinct(p: Pos, q: Pos) { p in at && q in at && at[p] == at[q] ==> p == q }

    ghost predicate Placed(t: nat) { t in tables ==> exists p :: p in at && at[p] == t }

    ghost predicate DownOk(l: nat, e: nat)
      requires g.Ok()
    {
      match EntryAt(l, e)
      case Invalid => true
      case Leaf(f) => f > 0 && l <= g.levels && f % g.Span(l) == 0
      case Table(t) => l < g.levels && Pos(l + 1, e) in at && at[Pos(l + 1, e)] == t
    }

    ghost predicate UpOk(p: Pos)
      requires g.Ok()
    {
      p in at && p.level > 1 ==> EntryAt(p.level - 1, p.num) == Table(at[p])
    }

    ghost predicate Used(p: Pos, e: nat)
      requires g.Ok()
    {
      e / g.fan == p.num && EntryAt(p.level, e) != Invalid
    }

    ghost predicate Empty(p: Pos)
      requires g.Ok()
    {
      forall e: nat {:trigger Used(p, e)} :: !Used(p, e)
    }

    ghost predicate NonEmpty(p: Pos)
      requires g.Ok()
    {
      p in at && p.level > 1 ==> exists e: nat :: Used(p, e)
    }

    /** A tree without empty tables, except perhaps the root and the one at `skip`. */
    ghost predicate Valid(skip: Pos) {
      && g.Ok() && ROOT in at && at[ROOT] == root
      && (forall p {:trigger TableOk(p)} :: TableOk(p))
      && (forall p, q {:trigger Distinct(p, q)} :: Distinct(p, q))
      && (forall t {:trigger Placed(t)} :: Placed(t))
      && (forall l, e {:trigger DownOk(l, e)} :: DownOk(l, e))
      && (forall p {:trigger UpOk(p)} :: UpOk(p))
      && (forall p {:trigger NonEmpty(p)} :: p != skip ==> NonEmpty(p))
    }

    /** What the hardware, and the source's walk, makes of page `v` from level `l` on: 0 if unmapped. */
    ghost function Walk(v: nat, l: nat): nat
      requires g.Ok() && 1 <= l <= g.levels
      decreases g.levels - l
    {
      match EntryAt(l, g.Num(v, l))
      case Invalid => 0
      case Leaf(f) => f + v % g.Span(l)
      case Table(_) => if l < g.levels then Walk(v, l + 1) else 0
    }

    ghost function Translate(v: nat): nat
      requires g.Ok()
    {
      Walk(v, 1)
    }

    ghost predicate Unmapped(v: nat)
      requires g.Ok()
    {
      forall l: nat {:trigger LeafAt(l, g.Num(v, l))} :: l <= g.levels ==> LeafAt(l, g.Num(v, l)) == 0
    }
  }

  // ---------------------------------------------------------------- translation depends on leaves only

  /** Above a table every entry on the way to it points down. */
  lemma {:induction false} WalkReaches(t: Tree, v: nat, l: nat, skip: Pos)
    requires t.Valid(skip) && 1 <= l <= t.g.levels && Pos(l, t.g.Num(v, l - 1)) in t.at
    ensures t.Translate(v) == t.Walk(v, l)
    decreases l
  {
    if l > 1 {
      var p := Pos(l, t.g.Num(v, l - 1));
      assert t.UpOk(p);
      assert t.TableOk(Pos(l - 1, t.g.Num(v, l - 2)));
      WalkReaches(t, v, l - 1, skip);
    }
  }

  lemma LeafIsTranslation(t: Tree, v: nat, l: nat, skip: Pos)
    requires t.Valid(skip) && l <= t.g.levels && t.LeafAt(l, t.g.Num(v, l)) != 0
    ensures l > 0 && t.Translate(v) == t.LeafAt(l, t.g.Num(v, l)) + v % t.g.Span(l)
  {
    var e := t.g.Num(v, l);
    var p := Pos(l, e / t.g.fan);
    assert t.TableOk(p);
    WalkReaches(t, v, l, skip);
  }

  lemma {:induction false} WalkFindsLeaf(t: Tree, v: nat, l: nat, skip: Pos) returns (k: nat)
    requires t.Valid(skip) && 1 <= l <= t.g.levels && t.Walk(v, l) != 0
    ensures l <= k <= t.g.levels && t.LeafAt(k, t.g.Num(v, k)) != 0
    decreases t.g.levels - l
  {
    assert t.DownOk(l, t.g.Num(v, l));
    if t.EntryAt(l, t.g.Num(v, l)).Leaf? { k := l; } else { k := WalkFindsLeaf(t, v, l + 1, skip); }
  }

  lemma UnmappedIsZero(t: Tree, v: nat, skip: Pos)
    requires t.Valid(skip)
    ensures t.Unmapped(v) <==> t.Translate(v) == 0
  {
    if t.Translate(v) != 0 {
      var k := WalkFindsLeaf(t, v, 1, skip);
      assert t.LeafAt(k, t.g.Num(v, k)) != 0;
    } else if !t.Unmapped(v) {
      var l: nat :| l <= t.g.levels && t.LeafAt(l, t.g.Num(v, l)) != 0;
      LeafIsTranslation(t, v, l, skip);
    }
  }

  /** Trees with the same leaves for a page translate it alike. */
  lemma SameLeavesSameTranslation(t: Tree, u: Tree, v: nat)
    requires t.Valid(NOWHERE) && u.Valid(NOWHERE) && t.g == u.g
    requires forall l: nat {:trigger t.LeafAt(l, t.g.Num(v, l))} {:trigger u.LeafAt(l, t.g.Num(v, l))} ::
      l <= t.g.levels ==> t.LeafAt(l, t.g.Num(v, l)) == u.LeafAt(l, t.g.Num(v, l))
    ensures t.Translate(v) == u.Translate(v)
  {
    UnmappedIsZero(t, v, NOWHERE);
    UnmappedIsZero(u, v, NOWHERE);
    if !t.Unmapped(v) {
      var l: nat :| l <= t.g.levels && t.LeafAt(l, t.g.Num(v, l)) != 0;
      assert u.LeafAt(l, t.g.Num(v, l)) != 0;
      LeafIsTranslation(t, v, l, NOWHERE);
      LeafIsTranslation(u, v, l, NOWHERE);
    }
  }

  /** Below every table there is a leaf, unless the empty one is on the way. */
  lemma {:induction false} TableHasLeaf(t: Tree, p: Pos, skip: Pos) returns (v: nat, k: nat)
    requires t.Valid(skip) && p in t.at && p.level > 1 && skip.level < p.level
    ensures 1 <= p.level <= t.g.levels && t.g.Num(v, p.level - 1) == p.num
    ensures p.level <= k <= t.g.levels && t.LeafAt(k, t.g.Num(v, k)) != 0
    decreases t.g.levels - p.level
  {
    assert t.TableOk(p) && t.NonEmpty(p);
    var l := p.level;
    var e: nat :| t.Used(p, e);
    assert t.DownOk(l, e);
    if t.EntryAt(l, e).Leaf? {
      v, k := t.g.First(e, l), l;
      t.g.FirstIsBelow(e, l);
    } else {
      v, k := TableHasLeaf(t, Pos(l + 1, e), skip);
    }
  }

  // ---------------------------------------------------------------- the four changes

  /** Writes one entry. */
  ghost function Set(t: Tree, l: nat, e: nat, x: Entry): Tree
    requires t.g.Ok() && t.Hangs(Pos(l, e / t.g.fan))
  {
    var f := t.at[Pos(l, e / t.g.fan)];
    t.(tables := t.tables[f := t.tables[f][e % t.g.fan := x]])
  }

  ghost predicate Apart(t: Tree) { forall p, q {:trigger t.Distinct(p, q)} :: t.Distinct(p, q) }

  lemma SetEntry(t: Tree, l: nat, e: nat, x: Entry, k: nat, d: nat)
    requires t.g.Ok() && t.Hangs(Pos(l, e / t.g.fan)) && Apart(t)
    ensures Set(t, l, e, x).EntryAt(k, d) == if k == l && d == e then x else t.EntryAt(k, d)
  {
    var p, q := Pos(l, e / t.g.fan), Pos(k, d / t.g.fan);
    assert t.Distinct(p, q);
    if p == q && d != e && e % t.g.fan == d % t.g.fan { ByParts(e, d, t.g.fan); }
  }

  /** Hangs a new empty table below entry `e`. */
  ghost function Hang(t: Tree, l: nat, e: nat, f: nat): Tree
    requires t.g.Ok() && t.Hangs(Pos(l, e / t.g.fan))
  {
    var s := Set(t, l, e, Table(f));
    s.(at := s.at[Pos(l + 1, e) := f], tables := s.tables[f := seq(t.g.fan, _ => Invalid)])
  }

  /** Takes the table below entry `e` away. */
  ghost function Drop(t: Tree, l: nat, e: nat): Tree
    requires t.g.Ok() && t.Hangs(Pos(l, e / t.g.fan)) && Pos(l + 1, e) in t.at
  {
    var s := Set(t, l, e, Invalid);
    s.(at := s.at - {Pos(l + 1, e)}, tables := s.tables - {t.at[Pos(l + 1, e)]})
  }

  lemma HangEntry(t: Tree, l: nat, e: nat, f: nat, k: nat, d: nat)
    requires t.g.Ok() && t.Hangs(Pos(l, e / t.g.fan)) && Apart(t) && f !in t.tables && Pos(l + 1, e) !in t.at
    requires forall p {:trigger t.TableOk(p)} :: t.TableOk(p)
    ensures Hang(t, l, e, f).EntryAt(k, d) == if k == l && d == e then Table(f) else t.EntryAt(k, d)
  {
    SetEntry(t, l, e, Table(f), k, d);
    assert t.TableOk(Pos(k, d / t.g.fan));
  }

  lemma DropEntry(t: Tree, l: nat, e: nat, k: nat, d: nat)
    requires t.g.Ok() && t.Hangs(Pos(l, e / t.g.fan)) && Apart(t) && Pos(l + 1, e) in t.at
    requires t.Empty(Pos(l + 1, e))
    ensures Drop(t, l, e).EntryAt(k, d) == if k == l && d == e then Invalid else t.EntryAt(k, d)
  {
    SetEntry(t, l, e, Invalid, k, d);
    assert t.Distinct(Pos(k, d / t.g.fan), Pos(l + 1, e)) && !t.Used(Pos(l + 1, e), d);
  }

  // ---------------------------------------------------------------- each keeps the tree

  /** Tables hang where they should, whatever the entries say. */
  ghost predicate Framed(t: Tree) {
    && t.g.Ok() && ROOT in t.at && t.at[ROOT] == t.root && Apart(t)
    && (forall p {:trigger t.TableOk(p)} :: t.TableOk(p))
    && (forall f {:trigger t.Placed(f)} :: t.Placed(f))
  }

  lemma SetFramed(t: Tree, l: nat, e: nat, x: Entry)
    requires Framed(t) && t.Hangs(Pos(l, e / t.g.fan))
    ensures Framed(Set(t, l, e, x))
  {
    var s := Set(t, l, e, x);
    forall p ensures s.TableOk(p) { assert t.TableOk(p); }
    forall p, q ensures s.Distinct(p, q) { assert t.Distinct(p, q); }
    forall f ensures s.Placed(f) { assert t.Placed(f); }
  }

  /** A leaf in place of nothing: the table that holds it is not empty any more. */
  lemma LeafKeeps(t: Tree, l: nat, e: nat, f: nat, skip: Pos)
    requires t.Valid(skip) && t.Hangs(Pos(l, e / t.g.fan)) && t.EntryAt(l, e) == Invalid
    requires skip == NOWHERE || skip == Pos(l, e / t.g.fan)
    requires f > 0 && l <= t.g.levels && f % t.g.Span(l) == 0
    ensures Set(t, l, e, Leaf(f)).Valid(NOWHERE)
  {
    var s := Set(t, l, e, Leaf(f));
    SetFramed(t, l, e, Leaf(f));
    forall k, d ensures s.DownOk(k, d) {
      SetEntry(t, l, e, Leaf(f), k, d);
      assert t.DownOk(k, d);
    }
    forall p ensures s.UpOk(p) {
      if p.level > 1 { SetEntry(t, l, e, Leaf(f), p.level - 1, p.num); }
      assert t.UpOk(p);
    }
    forall p ensures s.NonEmpty(p) { LeafNonEmpty(t, l, e, f, skip, p); }
  }

  lemma LeafNonEmpty(t: Tree, l: nat, e: nat, f: nat, skip: Pos, p: Pos)
    requires t.Valid(skip) && t.Hangs(Pos(l, e / t.g.fan)) && (skip == NOWHERE || skip == Pos(l, e / t.g.fan))
    ensures Set(t, l, e, Leaf(f)).NonEmpty(p)
  {
    var s := Set(t, l, e, Leaf(f));
    if p in t.at && p.level > 1 {
      if p == Pos(l, e / t.g.fan) {
        SetEntry(t, l, e, Leaf(f), l, e);
        assert s.Used(p, e);
      } else {
        assert t.NonEmpty(p);
        var d: nat :| t.Used(p, d);
        SetEntry(t, l, e, Leaf(f), p.level, d);
        assert s.Used(p, d);
      }
    }
  }

  /** No leaf any more: its table may have become empty. */
  lemma ClearKeeps(t: Tree, l: nat, e: nat)
    requires t.Valid(NOWHERE) && t.EntryAt(l, e).Leaf?
    ensures t.Hangs(Pos(l, e / t.g.fan)) && Set(t, l, e, Invalid).Valid(Pos(l, e / t.g.fan))
  {
    var s, skip := Set(t, l, e, Invalid), Pos(l, e / t.g.fan);
    SetFramed(t, l, e, Invalid);
    forall k, d ensures s.DownOk(k, d) {
      SetEntry(t, l, e, Invalid, k, d);
      assert t.DownOk(k, d);
    }
    forall p ensures s.UpOk(p) {
      if p.level > 1 { SetEntry(t, l, e, Invalid, p.level - 1, p.num); }
      assert t.UpOk(p);
    }
    forall p | p != skip ensures s.NonEmpty(p) {
      assert t.NonEmpty(p);
      if p in t.at && p.level > 1 {
        var d: nat :| t.Used(p, d);
        SetEntry(t, l, e, Invalid, p.level, d);
        assert s.Used(p, d);
      }
    }
  }

  lemma HangFramed(t: Tree, l: nat, e: nat, f: nat)
    requires Framed(t) && t.Hangs(Pos(l, e / t.g.fan)) && 1 <= l < t.g.levels
    requires f !in t.tables && Pos(l + 1, e) !in t.at
    ensures Framed(Hang(t, l, e, f))
  {
    var s := Hang(t, l, e, f);
    forall p ensures s.TableOk(p) { assert t.TableOk(p); }
    forall p, q ensures s.Distinct(p, q) { assert t.Distinct(p, q) && t.TableOk(p) && t.TableOk(q); }
    forall h ensures s.Placed(h) {
      assert t.Placed(h);
      if h == f {
        assert s.at[Pos(l + 1, e)] == f;
      } else if h in s.tables {
        var p :| p in t.at && t.at[p] == h;
        assert s.at[p] == h;
      }
    }
  }

  /** A new table: the one above it is not empty any more, but the new one is. */
  lemma HangKeeps(t: Tree, l: nat, e: nat, f: nat, skip: Pos)
    requires t.Valid(skip) && t.Hangs(Pos(l, e / t.g.fan)) && t.EntryAt(l, e) == Invalid
    requires skip == NOWHERE || skip == Pos(l, e / t.g.fan)
    requires 1 <= l < t.g.levels && f !in t.tables
    ensures Hang(t, l, e, f).Valid(Pos(l + 1, e)) && Hang(t, l, e, f).Hangs(Pos(l + 1, e))
  {
    var s := Hang(t, l, e, f);
    assert t.UpOk(Pos(l + 1, e));
    HangFramed(t, l, e, f);
    forall k, d ensures s.DownOk(k, d) {
      HangEntry(t, l, e, f, k, d);
      assert t.DownOk(k, d);
    }
    forall p ensures s.UpOk(p) {
      if p.level > 1 { HangEntry(t, l, e, f, p.level - 1, p.num); }
      assert t.UpOk(p);
    }
    forall p | p != Pos(l + 1, e) ensures s.NonEmpty(p) { HangNonEmpty(t, l, e, f, skip, p); }
  }

  lemma HangNonEmpty(t: Tree, l: nat, e: nat, f: nat, skip: Pos, p: Pos)
    requires t.Valid(skip) && t.Hangs(Pos(l, e / t.g.fan)) && (skip == NOWHERE || skip == Pos(l, e / t.g.fan))
    requires f !in t.tables && Pos(l + 1, e) !in t.at && p != Pos(l + 1, e)
    ensures Hang(t, l, e, f).NonEmpty(p)
  {
    var s := Hang(t, l, e, f);
    if p in t.at && p.level > 1 {
      if p == Pos(l, e / t.g.fan) {
        HangEntry(t, l, e, f, l, e);
        assert s.Used(p, e);
      } else {
        assert t.NonEmpty(p);
        var d: nat :| t.Used(p, d);
        HangEntry(t, l, e, f, p.level, d);
        assert s.Used(p, d);
      }
    }
  }

  lemma DropFramed(t: Tree, l: nat, e: nat)
    requires Framed(t) && t.Hangs(Pos(l, e / t.g.fan)) && 1 <= l && Pos(l + 1, e) in t.at
    ensures Framed(Drop(t, l, e))
  {
    var s, gone := Drop(t, l, e), Pos(l + 1, e);
    forall p ensures s.TableOk(p) { assert t.TableOk(p) && t.Distinct(p, gone); }
    forall p, q ensures s.Distinct(p, q) { assert t.Distinct(p, q); }
    assert t.Distinct(ROOT, gone);
    forall h ensures s.Placed(h) {
      assert t.Placed(h);
      if h in s.tables {
        var p :| p in t.at && t.at[p] == h;
        assert p != gone && s.at[p] == h;
      }
    }
  }

  /** An empty table taken away: now the one above it may be empty. */
  lemma DropKeeps(t: Tree, l: nat, e: nat)
    requires t.Valid(Pos(l + 1, e)) && 1 <= l && Pos(l + 1, e) in t.at
    requires t.Empty(Pos(l + 1, e))
    ensures t.Hangs(Pos(l, e / t.g.fan)) && Drop(t, l, e).Valid(Pos(l, e / t.g.fan))
  {
    var gone, skip := Pos(l + 1, e), Pos(l, e / t.g.fan);
    assert t.UpOk(gone);
    var s := Drop(t, l, e);
    DropFramed(t, l, e);
    forall k, d ensures s.DownOk(k, d) {
      DropEntry(t, l, e, k, d);
      assert t.DownOk(k, d);
    }
    forall p ensures s.UpOk(p) {
      assert t.UpOk(p);
      if p.level > 1 && p in s.at { DropEntry(t, l, e, p.level - 1, p.num); }
    }
    forall p | p != skip ensures s.NonEmpty(p) {
      if p in s.at && p.level > 1 {
        assert t.NonEmpty(p);
        var d: nat :| t.Used(p, d);
        DropEntry(t, l, e, p.level, d);
        assert s.Used(p, d);
      }
    }
  }

  /** A tree whose exempted table is the root, or is not empty, is a tree without exemption. */
  lemma NoExemption(t: Tree, skip: Pos)
    requires t.Valid(skip) && (skip.level <= 1 || !t.Empty(skip))
    ensures t.Valid(NOWHERE)
  {
    forall p ensures t.NonEmpty(p) { assert p != skip ==> t.NonEmpty(p); }
  }

  // ---------------------------------------------------------------- parts of a tree

  /** `a` is a part of `b`: fewer tables, and entries that are the same or not there. */
  ghost predicate Part(a: Tree, b: Tree) {
    && a.g == b.g && a.g.Ok() && a.root == b.root
    && (forall p {:trigger HangsAlike(a, b, p)} :: HangsAlike(a, b, p))
    && (forall l, e {:trigger SaysLess(a, b, l, e)} :: SaysLess(a, b, l, e))
  }

  ghost predicate HangsAlike(a: Tree, b: Tree, p: Pos) { p in a.at ==> p in b.at && a.at[p] == b.at[p] }

  ghost predicate SaysLess(a: Tree, b: Tree, l: nat, e: nat)
    requires a.g == b.g && a.g.Ok()
  {
    a.EntryAt(l, e) == Invalid || a.EntryAt(l, e) == b.EntryAt(l, e)
  }

  lemma PartOfPart(a: Tree, b: Tree, c: Tree)
    requires Part(a, b) && Part(b, c)
    ensures Part(a, c)
  {
    forall p ensures HangsAlike(a, c, p) { assert HangsAlike(a, b, p) && HangsAlike(b, c, p); }
    forall l, e ensures SaysLess(a, c, l, e) { assert SaysLess(a, b, l, e) && SaysLess(b, c, l, e); }
  }

  lemma SetPart(t: Tree, l: nat, e: nat, x: Entry)
    requires t.g.Ok() && t.Hangs(Pos(l, e / t.g.fan)) && Apart(t)
    ensures t.EntryAt(l, e) == Invalid ==> Part(t, Set(t, l, e, x))
    ensures x == Invalid ==> Part(Set(t, l, e, x), t)
  {
    var s := Set(t, l, e, x);
    forall p ensures HangsAlike(t, s, p) && HangsAlike(s, t, p) { }
    forall k, d ensures t.EntryAt(l, e) == Invalid ==> SaysLess(t, s, k, d) { SetEntry(t, l, e, x, k, d); }
    forall k, d ensures x == Invalid ==> SaysLess(s, t, k, d) { SetEntry(t, l, e, x, k, d); }
  }

  lemma HangPart(t: Tree, l: nat, e: nat, f: nat, skip: Pos)
    requires t.Valid(skip) && t.Hangs(Pos(l, e / t.g.fan)) && t.EntryAt(l, e) == Invalid && f !in t.tables && l > 0
    ensures Part(t, Hang(t, l, e, f))
  {
    var s := Hang(t, l, e, f);
    assert t.UpOk(Pos(l + 1, e));
    forall p ensures HangsAlike(t, s, p) { }
    forall k, d ensures SaysLess(t, s, k, d) { HangEntry(t, l, e, f, k, d); }
  }

  lemma DropPart(t: Tree, l: nat, e: nat)
    requires t.g.Ok() && t.Hangs(Pos(l, e / t.g.fan)) && Apart(t) && Pos(l + 1, e) in t.at && t.Empty(Pos(l + 1, e))
    ensures Part(Drop(t, l, e), t)
  {
    var s := Drop(t, l, e);
    forall p ensures HangsAlike(s, t, p) { }
    forall k, d ensures SaysLess(s, t, k, d) { DropEntry(t, l, e, k, d); }
  }

  // ---------------------------------------------------------------- the leaves determine the part

  ghost predicate SameLeaves(a: Tree, b: Tree)
    requires a.g.Ok() && b.g.Ok()
  {
    forall l, e {:trigger a.LeafAt(l, e)} {:trigger b.LeafAt(l, e)} :: a.LeafAt(l, e) == b.LeafAt(l, e)
  }

  lemma {:induction false} AncestorsHang(t: Tree, v: nat, k: nat, l: nat)
    requires t.Valid(NOWHERE) && 1 <= l <= k <= t.g.levels && Pos(k, t.g.Num(v, k - 1)) in t.at
    ensures Pos(l, t.g.Num(v, l - 1)) in t.at
    decreases k
  {
    if l < k {
      assert t.UpOk(Pos(k, t.g.Num(v, k - 1)));
      assert t.TableOk(Pos(k - 1, t.g.Num(v, k - 2)));
      AncestorsHang(t, v, k - 1, l);
    }
  }

  lemma SameTables(a: Tree, b: Tree, c: Tree, p: Pos)
    requires a.Valid(NOWHERE) && b.Valid(NOWHERE) && Part(a, c) && Part(b, c) && SameLeaves(a, b) && p in a.at
    ensures p in b.at && a.at[p] == b.at[p]
  {
    assert a.TableOk(p) && HangsAlike(a, c, p) && HangsAlike(b, c, p);
    if p.level > 1 {
      var v, k := TableHasLeaf(a, p, NOWHERE);
      assert b.LeafAt(k, a.g.Num(v, k)) != 0;
      AncestorsHang(b, v, k, p.level);
    }
  }

  lemma SameEntries(a: Tree, b: Tree, c: Tree, l: nat, e: nat)
    requires a.Valid(NOWHERE) && b.Valid(NOWHERE) && Part(a, c) && Part(b, c) && SameLeaves(a, b) && a.at == b.at
    ensures a.EntryAt(l, e) == b.EntryAt(l, e)
  {
    assert SaysLess(a, c, l, e) && SaysLess(b, c, l, e);
    assert a.LeafAt(l, e) == b.LeafAt(l, e);
    assert a.DownOk(l, e) && b.DownOk(l, e);
    assert a.UpOk(Pos(l + 1, e)) && b.UpOk(Pos(l + 1, e));
    assert a.TableOk(Pos(l, e / a.g.fan)) && b.TableOk(Pos(l, e / a.g.fan));
  }

  lemma SameContents(a: Tree, b: Tree, p: Pos)
    requires a.Valid(NOWHERE) && b.Valid(NOWHERE) && a.g == b.g && a.at == b.at && p in a.at
    requires forall l, e {:trigger a.EntryAt(l, e)} :: a.EntryAt(l, e) == b.EntryAt(l, e)
    ensures a.Hangs(p) && b.Hangs(p) && a.tables[a.at[p]] == b.tables[b.at[p]]
  {
    assert a.TableOk(p) && b.TableOk(p);
    var s, r := a.tables[a.at[p]], b.tables[b.at[p]];
    forall i: nat | i < a.g.fan ensures s[i] == r[i] {
      var e := a.g.fan * p.num + i;
      DivModUnique(e, a.g.fan, p.num, i);
      assert a.EntryAt(p.level, e) == s[i];
    }
  }

  /** Two parts of one tree, both without empty tables, are the same if their leaves are. */
  lemma SameLeavesSameTree(a: Tree, b: Tree, c: Tree)
    requires a.Valid(NOWHERE) && b.Valid(NOWHERE) && Part(a, c) && Part(b, c) && SameLeaves(a, b)
    ensures a == b
  {
    forall p | p in a.at ensures p in b.at && a.at[p] == b.at[p] { SameTables(a, b, c, p); }
    forall p | p in b.at ensures p in a.at { SameTables(b, a, c, p); }
    assert a.at == b.at;
    forall l, e ensures a.EntryAt(l, e) == b.EntryAt(l, e) { SameEntries(a, b, c, l, e); }
    forall f | f in a.tables ensures f in b.tables && a.tables[f] == b.tables[f] {
      assert a.Placed(f);
      var p :| p in a.at && a.at[p] == f;
      SameContents(a, b, p);
    }
    forall f | f in b.tables ensures f in a.tables {
      assert b.Placed(f);
      var p :| p in b.at && b.at[p] == f;
      SameContents(a, b, p);
    }
    assert a.tables == b.tables;
  }
}
