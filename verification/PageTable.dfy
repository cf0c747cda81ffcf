/** Mapping and unmapping ranges of pages by walking and editing page tables in place. */
module PageTable {
  import opened Common
  import opened Pow2
  import opened PageTree

  // ---------------------------------------------------------------- the blocks of a range

  predicate BlockFits(g: Geometry, v: nat, p: nat, n: nat, l: nat)
    requires g.Ok() && 1 <= l <= g.levels
  {
    g.blocks[l - 1] && v % g.Span(l) == 0 && p % g.Span(l) == 0 && n >= g.Span(l)
  }

  /** The first level from `l` on whose blocks suit the rest of a range. */
  function LevelFrom(g: Geometry, v: nat, p: nat, n: nat, l: nat): (b: nat)
    requires g.Ok() && 1 <= l <= g.levels && n > 0
    ensures l <= b <= g.levels && g.blocks[b - 1] && v % g.Span(b) == 0 && p % g.Span(b) == 0 && g.Span(b) <= n
    ensures forall j {:trigger g.Span(j)} :: l <= j < b ==>
      !(g.blocks[j - 1] && v % g.Span(j) == 0 && p % g.Span(j) == 0 && g.Span(j) <= n)
    decreases g.levels - l
  {
    if l < g.levels && !BlockFits(g, v, p, n, l) then LevelFrom(g, v, p, n, l + 1) else l
  }

  /** The frame that the range starting at `v` maps with a block at entry `e` of level `l`, or 0. */
  ghost function BlockAt(g: Geometry, v: nat, p: nat, n: nat, l: nat, e: nat): nat
    requires g.Ok()
    decreases n
  {
    if n == 0 then 0 else
      var b := LevelFrom(g, v, p, n, 1);
      if l == b && e == g.Num(v, b) then p
      else BlockAt(g, v + g.Span(b), p + g.Span(b), n - g.Span(b), l, e)
  }

  /** Every block lies in the range and maps it to the same offset. */
  lemma {:induction false} BlockInRange(g: Geometry, v: nat, p: nat, n: nat, l: nat, e: nat)
    requires g.Ok() && BlockAt(g, v, p, n, l, e) != 0
    ensures 1 <= l <= g.levels && v <= g.First(e, l) && g.First(e, l) + g.Span(l) <= v + n
    ensures BlockAt(g, v, p, n, l, e) == p + (g.First(e, l) - v)
    decreases n
  {
    var b := LevelFrom(g, v, p, n, 1);
    g.BlockIsEntry(v, v, b);
    if !(l == b && e == g.Num(v, b)) { BlockInRange(g, v + g.Span(b), p + g.Span(b), n - g.Span(b), l, e); }
  }

  /** Every block is at a level that may hold blocks. */
  lemma {:induction false} BlockAllowed(g: Geometry, v: nat, p: nat, n: nat, l: nat, e: nat)
    requires g.Ok() && BlockAt(g, v, p, n, l, e) != 0
    ensures 1 <= l <= g.levels && g.blocks[l - 1]
    decreases n
  {
    var b := LevelFrom(g, v, p, n, 1);
    if !(l == b && e == g.Num(v, b)) { BlockAllowed(g, v + g.Span(b), p + g.Span(b), n - g.Span(b), l, e); }
  }

  /** Every page of the range is in a block, with the right frame. */
  lemma {:induction false} PageInBlock(g: Geometry, v: nat, p: nat, n: nat, w: nat) returns (l: nat)
    requires g.Ok() && p > 0 && v <= w < v + n
    ensures 1 <= l <= g.levels && BlockAt(g, v, p, n, l, g.Num(w, l)) != 0
    ensures BlockAt(g, v, p, n, l, g.Num(w, l)) + w % g.Span(l) == p + (w - v)
    decreases n
  {
    var b := LevelFrom(g, v, p, n, 1);
    g.BlockIsEntry(v, w, b);
    if w < v + g.Span(b) {
      l := b;
    } else {
      l := PageInBlock(g, v + g.Span(b), p + g.Span(b), n - g.Span(b), w);
    }
  }

  /** No page outside the range is in a block. */
  lemma BlockOfPage(g: Geometry, v: nat, p: nat, n: nat, w: nat, l: nat)
    requires g.Ok() && l <= g.levels && BlockAt(g, v, p, n, l, g.Num(w, l)) != 0
    ensures v <= w < v + n
  {
    var e := g.Num(w, l);
    BlockInRange(g, v, p, n, l, e);
    g.FirstIsBelow(e, l);
    g.BlockIsEntry(g.First(e, l), w, l);
  }

  // ---------------------------------------------------------------- leaves after a range operation

  /** `u` has the leaves of `t` and one more. */
  ghost predicate Gains(t: Tree, u: Tree, l: nat, e: nat, f: nat)
    requires t.g.Ok() && u.g.Ok()
  {
    forall k, d {:trigger u.LeafAt(k, d)} {:trigger t.LeafAt(k, d)} :: u.LeafAt(k, d) == if k == l && d == e then f else t.LeafAt(k, d)
  }

  /** Blocks laid over, or taken out of, the leaves of a tree. */
  type Blocks = (nat, nat) -> nat

  ghost function BlocksOf(g: Geometry, v: nat, p: nat, n: nat): Blocks
    requires g.Ok()
  {
    (l, e) => BlockAt(g, v, p, n, l, e)
  }

  ghost function OverlayAt(t: Tree, f: Blocks, l: nat, e: nat): nat
    requires t.g.Ok()
  {
    if f(l, e) != 0 then f(l, e) else t.LeafAt(l, e)
  }

  ghost function StripAt(t: Tree, f: Blocks, l: nat, e: nat): nat
    requires t.g.Ok()
  {
    if f(l, e) != 0 then 0 else t.LeafAt(l, e)
  }

  /** `u` is `t` with the blocks laid over it. */
  ghost predicate Overlaid(t: Tree, u: Tree, f: Blocks)
    requires t.g.Ok() && u.g == t.g
  {
    forall l, e {:trigger u.LeafAt(l, e)} {:trigger t.LeafAt(l, e)} :: u.LeafAt(l, e) == OverlayAt(t, f, l, e)
  }

  /** Leaves occur only at levels that may hold blocks. */
  ghost predicate Allowed(t: Tree)
    requires t.g.Ok()
  {
    forall l: nat, e: nat {:trigger t.LeafAt(l, e)} :: t.LeafAt(l, e) != 0 ==> 1 <= l <= t.g.levels && t.g.blocks[l - 1]
  }

  lemma OverlayAllowed(t: Tree, u: Tree, v: nat, p: nat, n: nat)
    requires t.g.Ok() && u.g == t.g && Allowed(t) && Overlaid(t, u, BlocksOf(t.g, v, p, n))
    ensures Allowed(u)
  {
    forall l: nat, e: nat | u.LeafAt(l, e) != 0 ensures 1 <= l <= u.g.levels && u.g.blocks[l - 1] {
      if BlockAt(t.g, v, p, n, l, e) != 0 { BlockAllowed(t.g, v, p, n, l, e); }
    }
  }

  lemma StripAllowed(t: Tree, u: Tree, f: Blocks)
    requires t.g.Ok() && u.g == t.g && Allowed(t) && Stripped(t, u, f)
    ensures Allowed(u)
  {
  }

  /** `u` is `t` without the blocks. */
  ghost predicate Stripped(t: Tree, u: Tree, f: Blocks)
    requires t.g.Ok() && u.g == t.g
  {
    forall l, e {:trigger u.LeafAt(l, e)} {:trigger t.LeafAt(l, e)} :: u.LeafAt(l, e) == StripAt(t, f, l, e)
  }

  /** The blocks are leaves of `t`. */
  ghost predicate Holds(t: Tree, f: Blocks)
    requires t.g.Ok()
  {
    forall l, e {:trigger t.LeafAt(l, e)} :: f(l, e) != 0 ==> t.LeafAt(l, e) == f(l, e)
  }

  ghost predicate Vacant(t: Tree, v: nat, n: nat)
    requires t.g.Ok()
  {
    forall w {:trigger t.Unmapped(w)} :: v <= w < v + n ==> t.Unmapped(w)
  }

  /** Laying `f` over `t` gives what laying `h` over `m` gives. */
  ghost predicate SameOverlay(t: Tree, f: Blocks, m: Tree, h: Blocks)
    requires t.g.Ok() && m.g == t.g
  {
    forall l, e {:trigger t.LeafAt(l, e)} {:trigger m.LeafAt(l, e)} :: OverlayAt(t, f, l, e) == OverlayAt(m, h, l, e)
  }

  ghost predicate SameStrip(t: Tree, f: Blocks, m: Tree, h: Blocks)
    requires t.g.Ok() && m.g == t.g
  {
    forall l, e {:trigger t.LeafAt(l, e)} {:trigger m.LeafAt(l, e)} :: StripAt(t, f, l, e) == StripAt(m, h, l, e)
  }

  /** `f` has the blocks of `h` and one more. */
  ghost predicate OneMore(f: Blocks, h: Blocks, b: nat, d: nat, p: nat) {
    h(b, d) == 0 && forall l: nat, e: nat :: f(l, e) == if l == b && e == d then p else h(l, e)
  }

  lemma FirstAndRest(g: Geometry, v: nat, p: nat, n: nat, b: nat)
    requires g.Ok() && n > 0 && b == LevelFrom(g, v, p, n, 1)
    ensures OneMore(BlocksOf(g, v, p, n), BlocksOf(g, v + g.Span(b), p + g.Span(b), n - g.Span(b)), b, g.Num(v, b), p)
  {
    if BlockAt(g, v + g.Span(b), p + g.Span(b), n - g.Span(b), b, g.Num(v, b)) != 0 {
      BlockOfPage(g, v + g.Span(b), p + g.Span(b), n - g.Span(b), v, b);
    }
  }

  /** Setting the leaf of one block leaves the overlay of the others to do ... */
  lemma GainThenOverlay(t: Tree, m: Tree, f: Blocks, h: Blocks, b: nat, d: nat, p: nat)
    requires t.g.Ok() && m.g == t.g && OneMore(f, h, b, d, p) && Gains(t, m, b, d, p) && p > 0
    ensures SameOverlay(t, f, m, h)
  {
    forall l, e ensures OverlayAt(t, f, l, e) == OverlayAt(m, h, l, e) {
      assert m.LeafAt(l, e) == if l == b && e == d then p else t.LeafAt(l, e);
    }
  }

  /** ... and clearing it leaves the others to clear. */
  lemma LoseThenStrip(t: Tree, m: Tree, f: Blocks, h: Blocks, b: nat, d: nat, p: nat)
    requires t.g.Ok() && m.g == t.g && OneMore(f, h, b, d, p) && Gains(t, m, b, d, 0) && p > 0 && Holds(t, f)
    ensures SameStrip(t, f, m, h) && Holds(m, h)
  {
    forall l, e ensures StripAt(t, f, l, e) == StripAt(m, h, l, e) {
      assert m.LeafAt(l, e) == if l == b && e == d then 0 else t.LeafAt(l, e);
    }
    forall l, e | h(l, e) != 0 ensures m.LeafAt(l, e) == h(l, e) { assert t.LeafAt(l, e) == f(l, e); }
  }

  lemma OverlayTrans(t: Tree, f: Blocks, m: Tree, h: Blocks, u: Tree, i: Blocks)
    requires t.g.Ok() && m.g == t.g == u.g && SameOverlay(t, f, m, h) && SameOverlay(m, h, u, i)
    ensures SameOverlay(t, f, u, i)
  {
    forall l, e ensures OverlayAt(t, f, l, e) == OverlayAt(u, i, l, e) {
      assert t.LeafAt(l, e) >= 0 && m.LeafAt(l, e) >= 0;
    }
  }

  lemma StripTrans(t: Tree, f: Blocks, m: Tree, h: Blocks, u: Tree, i: Blocks)
    requires t.g.Ok() && m.g == t.g == u.g && SameStrip(t, f, m, h) && SameStrip(m, h, u, i)
    ensures SameStrip(t, f, u, i)
  {
    forall l, e ensures StripAt(t, f, l, e) == StripAt(u, i, l, e) {
      assert t.LeafAt(l, e) >= 0 && m.LeafAt(l, e) >= 0;
    }
  }

  lemma VacantAfter(t: Tree, m: Tree, v: nat, n: nat, b: nat, p: nat)
    requires t.g.Ok() && m.g == t.g && b <= t.g.levels && v % t.g.Span(b) == 0 && n >= t.g.Span(b) && Vacant(t, v, n)
    requires Gains(t, m, b, t.g.Num(v, b), p)
    ensures Vacant(m, v + t.g.Span(b), n - t.g.Span(b))
  {
    forall w | v + t.g.Span(b) <= w < v + n ensures m.Unmapped(w) {
      assert t.Unmapped(w);
      t.g.BlockIsEntry(v, w, b);
      forall l: nat | l <= m.g.levels ensures m.LeafAt(l, m.g.Num(w, l)) == 0 {
        assert t.LeafAt(l, t.g.Num(w, l)) == 0;
      }
    }
  }

  lemma HoldsFirst(t: Tree, v: nat, p: nat, n: nat, b: nat)
    requires t.g.Ok() && n > 0 && p > 0 && Holds(t, BlocksOf(t.g, v, p, n)) && b == LevelFrom(t.g, v, p, n, 1)
    ensures t.LeafAt(b, t.g.Num(v, b)) == p
  {
    assert BlockAt(t.g, v, p, n, b, t.g.Num(v, b)) == p;
  }

  // ---------------------------------------------------------------- what the ranges mean

  /** Mapping a vacant range translates its pages in order and no other page differently. */
  lemma OverlayTranslates(t: Tree, u: Tree, v: nat, p: nat, n: nat, w: nat)
    requires t.Valid(NOWHERE) && u.Valid(NOWHERE) && u.g == t.g && p > 0 && Overlaid(t, u, BlocksOf(t.g, v, p, n))
    ensures u.Translate(w) == if v <= w < v + n then p + (w - v) else t.Translate(w)
  {
    if v <= w < v + n {
      var l := PageInBlock(t.g, v, p, n, w);
      assert u.LeafAt(l, t.g.Num(w, l)) == OverlayAt(t, BlocksOf(t.g, v, p, n), l, t.g.Num(w, l));
      LeafIsTranslation(u, w, l, NOWHERE);
    } else {
      forall l: nat | l <= t.g.levels ensures t.LeafAt(l, t.g.Num(w, l)) == u.LeafAt(l, t.g.Num(w, l)) {
        if BlockAt(t.g, v, p, n, l, t.g.Num(w, l)) != 0 { BlockOfPage(t.g, v, p, n, w, l); }
      }
      SameLeavesSameTranslation(t, u, w);
    }
  }

  /** After unmapping, the pages of the range are unmapped and no other page changed. */
  lemma StripTranslates(t: Tree, u: Tree, v: nat, p: nat, n: nat, w: nat)
    requires t.Valid(NOWHERE) && u.Valid(NOWHERE) && u.g == t.g && p > 0
    requires Stripped(t, u, BlocksOf(t.g, v, p, n)) && Holds(t, BlocksOf(t.g, v, p, n))
    ensures v <= w < v + n ==> t.Translate(w) == p + (w - v)
    ensures u.Translate(w) == if v <= w < v + n then 0 else t.Translate(w)
  {
    if v <= w < v + n {
      var l := PageInBlock(t.g, v, p, n, w);
      assert t.LeafAt(l, t.g.Num(w, l)) == BlockAt(t.g, v, p, n, l, t.g.Num(w, l));
      LeafIsTranslation(t, w, l, NOWHERE);
      StrippedPage(t, u, v, p, n, w, l);
      UnmappedIsZero(u, w, NOWHERE);
    } else {
      forall l: nat | l <= t.g.levels ensures t.LeafAt(l, t.g.Num(w, l)) == u.LeafAt(l, t.g.Num(w, l)) {
        if BlockAt(t.g, v, p, n, l, t.g.Num(w, l)) != 0 { BlockOfPage(t.g, v, p, n, w, l); }
      }
      SameLeavesSameTranslation(t, u, w);
    }
  }

  lemma StrippedPage(t: Tree, u: Tree, v: nat, p: nat, n: nat, w: nat, l: nat)
    requires t.Valid(NOWHERE) && u.g == t.g && Stripped(t, u, BlocksOf(t.g, v, p, n)) && l <= t.g.levels
    requires BlockAt(t.g, v, p, n, l, t.g.Num(w, l)) != 0 && t.LeafAt(l, t.g.Num(w, l)) != 0
    ensures u.Unmapped(w)
  {
    forall k: nat | k <= t.g.levels ensures u.LeafAt(k, t.g.Num(w, k)) == 0 {
      assert u.LeafAt(k, t.g.Num(w, k)) == StripAt(t, BlocksOf(t.g, v, p, n), k, t.g.Num(w, k));
      if t.LeafAt(k, t.g.Num(w, k)) != 0 { OneLeafPerPage(t, w, l, k); }
    }
  }

  /** On the way to a page there is at most one leaf. */
  lemma OneLeafPerPage(t: Tree, w: nat, l: nat, k: nat)
    requires t.Valid(NOWHERE) && l <= t.g.levels && k <= t.g.levels
    requires t.LeafAt(l, t.g.Num(w, l)) != 0 && t.LeafAt(k, t.g.Num(w, k)) != 0
    ensures l == k
  {
    if l < k { NoLeafAbove(t, w, l, k); } else if k < l { NoLeafAbove(t, w, k, l); }
  }

  lemma NoLeafAbove(t: Tree, w: nat, l: nat, k: nat)
    requires t.Valid(NOWHERE) && l < k <= t.g.levels && t.LeafAt(k, t.g.Num(w, k)) != 0
    ensures t.LeafAt(l, t.g.Num(w, l)) == 0
  {
    assert t.TableOk(Pos(k, t.g.Num(w, k - 1)));
    if l > 0 {
      AncestorsHang(t, w, k, l + 1);
      assert t.UpOk(Pos(l + 1, t.g.Num(w, l)));
    } else {
      assert t.TableOk(Pos(0, t.g.Num(w, 0) / t.g.fan));
    }
  }

  /** Unmap undoes map: the same tables in the same frames, entry by entry. */
  lemma UnmapUndoesMap(t: Tree, m: Tree, u: Tree, v: nat, p: nat, n: nat)
    requires t.Valid(NOWHERE) && u.Valid(NOWHERE) && Part(t, m) && Part(u, m)
    requires Vacant(t, v, n) && Overlaid(t, m, BlocksOf(t.g, v, p, n)) && Stripped(m, u, BlocksOf(t.g, v, p, n))
    ensures u == t
  {
    forall l, e ensures t.LeafAt(l, e) == u.LeafAt(l, e) {
      assert u.LeafAt(l, e) == StripAt(m, BlocksOf(t.g, v, p, n), l, e);
      assert m.LeafAt(l, e) == OverlayAt(t, BlocksOf(t.g, v, p, n), l, e);
      if BlockAt(t.g, v, p, n, l, e) != 0 {
        BlockInRange(t.g, v, p, n, l, e);
        t.g.FirstIsBelow(e, l);
        assert t.Unmapped(t.g.First(e, l));
        assert t.LeafAt(l, t.g.Num(t.g.First(e, l), l)) == 0;
      }
    }
    SameLeavesSameTree(t, u, m);
  }

  // ---------------------------------------------------------------- one block

  lemma HangLeaves(t: Tree, l: nat, e: nat, f: nat, skip: Pos)
    requires t.Valid(skip) && t.Hangs(Pos(l, e / t.g.fan)) && t.EntryAt(l, e) == Invalid && f !in t.tables && l > 0
    ensures SameLeaves(t, Hang(t, l, e, f))
  {
    var s := Hang(t, l, e, f);
    assert t.UpOk(Pos(l + 1, e));
    forall k, d ensures t.LeafAt(k, d) == s.LeafAt(k, d) { HangEntry(t, l, e, f, k, d); }
  }

  lemma DropLeaves(t: Tree, l: nat, e: nat)
    requires t.g.Ok() && t.Hangs(Pos(l, e / t.g.fan)) && Apart(t) && Pos(l + 1, e) in t.at && t.Empty(Pos(l + 1, e))
    requires t.EntryAt(l, e).Table?
    ensures SameLeaves(t, Drop(t, l, e))
  {
    var s := Drop(t, l, e);
    forall k, d ensures t.LeafAt(k, d) == s.LeafAt(k, d) { DropEntry(t, l, e, k, d); }
  }

  lemma SetLeaves(t: Tree, l: nat, e: nat, x: Entry)
    requires t.g.Ok() && t.Hangs(Pos(l, e / t.g.fan)) && Apart(t) && !x.Table?
    ensures Gains(t, Set(t, l, e, x), l, e, if x.Leaf? then x.frame else 0)
  {
    var s := Set(t, l, e, x);
    forall k, d ensures s.LeafAt(k, d) == if k == l && d == e then (if x.Leaf? then x.frame else 0) else t.LeafAt(k, d) {
      SetEntry(t, l, e, x, k, d);
    }
  }

  lemma TableMapsPage(t: Tree, v: nat, b: nat, skip: Pos)
    requires t.Valid(skip) && 1 <= b <= t.g.levels && skip.level <= b && v % t.g.Span(b) == 0
    requires t.EntryAt(b, t.g.Num(v, b)).Table?
    ensures !Vacant(t, v, t.g.Span(b))
  {
    assert t.DownOk(b, t.g.Num(v, b));
    var w, k := TableHasLeaf(t, Pos(b + 1, t.g.Num(v, b)), skip);
    t.g.BlockIsEntry(v, w, b);
    assert t.LeafAt(k, t.g.Num(w, k)) != 0;
    assert !t.Unmapped(w);
  }

  /** Where a block is vacant there is nothing: not even a table, since it would have a leaf. */
  lemma TargetIsFree(t: Tree, v: nat, b: nat, skip: Pos)
    requires t.Valid(skip) && 1 <= b <= t.g.levels && skip.level <= b && v % t.g.Span(b) == 0 && Vacant(t, v, t.g.Span(b))
    ensures t.EntryAt(b, t.g.Num(v, b)) == Invalid
  {
    assert t.DownOk(b, t.g.Num(v, b));
    assert t.Unmapped(v) && t.LeafAt(b, t.g.Num(v, b)) == 0;
    if t.EntryAt(b, t.g.Num(v, b)).Table? { TableMapsPage(t, v, b, skip); }
  }

  lemma VacantStays(t: Tree, u: Tree, v: nat, n: nat)
    requires t.g.Ok() && u.g == t.g && SameLeaves(t, u) && Vacant(t, v, n)
    ensures Vacant(u, v, n)
  {
    forall w | v <= w < v + n ensures u.Unmapped(w) {
      assert t.Unmapped(w);
      forall l: nat | l <= u.g.levels ensures u.LeafAt(l, u.g.Num(w, l)) == 0 { assert t.LeafAt(l, t.g.Num(w, l)) == 0; }
    }
  }

  lemma SameLeavesTrans(t: Tree, m: Tree, u: Tree)
    requires t.g.Ok() && m.g.Ok() && u.g.Ok() && SameLeaves(t, m) && SameLeaves(m, u)
    ensures SameLeaves(t, u)
  {
    forall l, e ensures t.LeafAt(l, e) == u.LeafAt(l, e) { assert m.LeafAt(l, e) >= 0; }
  }

  lemma GainsFrom(t: Tree, m: Tree, u: Tree, l: nat, e: nat, f: nat)
    requires t.g.Ok() && m.g.Ok() && u.g.Ok() && SameLeaves(t, m) && Gains(m, u, l, e, f)
    ensures Gains(t, u, l, e, f)
  {
    forall k, d ensures u.LeafAt(k, d) == if k == l && d == e then f else t.LeafAt(k, d) { assert m.LeafAt(k, d) >= 0; }
  }

  lemma NotLeaf(t: Tree, v: nat, l: nat, n: nat)
    requires t.g.Ok() && l <= t.g.levels && n > 0 && Vacant(t, v, n)
    requires forall k, d {:trigger t.DownOk(k, d)} :: t.DownOk(k, d)
    ensures !t.EntryAt(l, t.g.Num(v, l)).Leaf?
  {
    assert t.Unmapped(v) && t.LeafAt(l, t.g.Num(v, l)) == 0 && t.DownOk(l, t.g.Num(v, l));
  }

  lemma TableIsUsed(t: Tree, l: nat, e: nat, skip: Pos)
    requires t.Valid(skip) && t.EntryAt(l, e) != Invalid && (skip == NOWHERE || skip == Pos(l, e / t.g.fan))
    ensures t.Valid(NOWHERE)
  {
    assert skip == Pos(l, e / t.g.fan) ==> t.Used(skip, e);
    NoExemption(t, skip);
  }

  lemma PartSelf(t: Tree)
    requires t.g.Ok()
    ensures Part(t, t)
  {
  }

  lemma OverlayHolds(t: Tree, u: Tree, f: Blocks)
    requires t.g.Ok() && u.g == t.g && Overlaid(t, u, f)
    ensures Holds(u, f)
  {
  }

  lemma NothingToStrip(t: Tree, u: Tree, all: Blocks, v: nat, p: nat)
    requires t.g.Ok() && u.g == t.g && SameStrip(t, all, u, BlocksOf(t.g, v, p, 0))
    ensures Stripped(t, u, all)
  {
    forall l, e ensures u.LeafAt(l, e) == StripAt(t, all, l, e) { assert t.LeafAt(l, e) >= 0; }
  }

  lemma GainsThen(t: Tree, m: Tree, u: Tree, l: nat, e: nat)
    requires t.g.Ok() && m.g.Ok() && u.g.Ok() && Gains(t, m, l, e, 0) && SameLeaves(m, u)
    ensures Gains(t, u, l, e, 0)
  {
    forall k, d ensures u.LeafAt(k, d) == if k == l && d == e then 0 else t.LeafAt(k, d) { assert m.LeafAt(k, d) >= 0; }
  }

  /** Above a leaf there are only tables. */
  lemma TableAboveLeaf(t: Tree, v: nat, l: nat, b: nat)
    requires t.Valid(NOWHERE) && 1 <= l < b <= t.g.levels && t.LeafAt(b, t.g.Num(v, b)) != 0
    ensures t.EntryAt(l, t.g.Num(v, l)).Table?
  {
    assert t.TableOk(Pos(b, t.g.Num(v, b - 1)));
    AncestorsHang(t, v, b, l + 1);
    assert t.UpOk(Pos(l + 1, t.g.Num(v, l)));
  }

  /** An entry that is not empty makes its table used. */
  lemma SlotIsUsed(t: Tree, p: Pos, i: nat)
    requires t.g.Ok() && t.Hangs(p) && i < t.g.fan && t.tables[t.at[p]][i] != Invalid
    ensures !t.Empty(p)
  {
    var e := t.g.fan * p.num + i;
    DivModUnique(e, t.g.fan, p.num, i);
    assert t.Used(p, e);
  }

  /** With no page left the overlay is the tree itself. */
  lemma NothingLeft(t: Tree, u: Tree, all: Blocks, v: nat, p: nat)
    requires t.g.Ok() && u.g == t.g && SameOverlay(t, all, u, BlocksOf(t.g, v, p, 0))
    ensures Overlaid(t, u, all)
  {
    forall l, e ensures u.LeafAt(l, e) == OverlayAt(t, all, l, e) { assert t.LeafAt(l, e) >= 0; }
  }

  function Rounded(a: nat): nat { a / PAGE_SIZE * PAGE_SIZE }

  /** The page after the last one that the addresses touch. */
  function PageEnd(vaddr: nat, size: nat): (n: nat)
    ensures n >= vaddr / PAGE_SIZE && vaddr + size <= PAGE_SIZE * n < vaddr + size + PAGE_SIZE
  {
    (vaddr + size + PAGE_SIZE - 1) / PAGE_SIZE
  }

  /** What `generic_translate` gives for an address. */
  ghost function Address(t: Tree, a: nat): nat
    requires t.g.Ok()
  {
    var f := t.Translate(a / PAGE_SIZE);
    if f == 0 then 0 else f * PAGE_SIZE + a % PAGE_SIZE
  }

  /** What it should give after mapping a range of addresses. */
  ghost function MappedTo(t: Tree, vaddr: nat, paddr: nat, size: nat, a: nat): nat
    requires t.g.Ok()
  {
    if Rounded(vaddr) <= a < PAGE_SIZE * PageEnd(vaddr, size) then Rounded(paddr) + (a - Rounded(vaddr)) else Address(t, a)
  }

  // ---------------------------------------------------------------- the code

  class PageTables {
    const g: Geometry
    const root: nat
    var tables: map<nat, seq<Entry>>

    ghost var at: map<Pos, nat>

    ghost function T(): Tree
      reads this
    {
      Tree(g, root, at, tables)
    }

    ghost predicate Sound()
      reads this
    {
      T().Valid(NOWHERE)
    }

    /** The tables are well formed, and leaves occur only at levels that may hold blocks. */
    ghost predicate Valid()
      reads this
    {
      Sound() && Allowed(T())
    }

    /** A root table without entries. */
    constructor (g: Geometry, root: nat)
      requires g.Ok()
      ensures Valid() && this.g == g && this.root == root && forall v: nat :: T().Translate(v) == 0
    {
      this.g, this.root := g, root;
      tables := map[root := seq(g.fan, _ => Invalid)];
      at := map[ROOT := root];
      new;
      forall f ensures T().Placed(f) { assert at[ROOT] == root; }
    }

    /** The table of page `v` at a level. */
    ghost predicate On(v: nat, level: nat, table: nat)
      requires g.Ok() && 1 <= level <= g.levels
      reads this
    {
      var p := Pos(level, g.Num(v, level - 1));
      p in at && at[p] == table
    }

    /** `page_get_pte`: the entry of page `v` in its table. */
    method GetEntry(table: nat, level: nat, v: nat, ghost skip: Pos) returns (x: Entry)
      requires T().Valid(skip) && 1 <= level <= g.levels && On(v, level, table)
      ensures table in tables && |tables[table]| == g.fan
      ensures x == tables[table][g.Num(v, level) % g.fan] == T().EntryAt(level, g.Num(v, level))
      ensures x.Table? ==> level < g.levels && On(v, level + 1, x.next)
    {
      assert T().DownOk(level, g.Num(v, level));
      assert T().TableOk(Pos(level, g.Num(v, level - 1)));
      x := tables[table][g.Num(v, level) % g.fan];
    }

    /** `_translate_attri`: 0 if the page is not mapped. */
    method Translate(v: nat) returns (f: nat)
      requires Sound() && v < g.Span(0)
      ensures f == T().Translate(v)
    {
      g.NumAtTop(v);
      var level, table := 1, root;
      while level < g.levels
        invariant 1 <= level <= g.levels && On(v, level, table) && T().Translate(v) == T().Walk(v, level)
      {
        var x := GetEntry(table, level, v, NOWHERE);
        if x == Invalid {
          return 0;
        }
        if x.Leaf? {
          return x.frame + v % g.Span(level);
        }
        table := x.next;
        level := level + 1;
      }
      var x := GetEntry(table, level, v, NOWHERE);
      return if x == Invalid then 0 else x.frame + v % g.Span(level);
    }

    /** `page_alloc_table`: a frame that holds no table yet, zeroed, and the entry pointing to it. */
    method AllocTable(table: nat, level: nat, v: nat, ghost skip: Pos) returns (f: nat)
      requires T().Valid(skip) && 1 <= level < g.levels && On(v, level, table)
      requires skip == NOWHERE || skip == Pos(level, g.Num(v, level - 1))
      requires T().EntryAt(level, g.Num(v, level)) == Invalid
      modifies this
      ensures T().Valid(Pos(level + 1, g.Num(v, level))) && On(v, level + 1, f) && f !in old(tables) && f > 0
      ensures Part(old(T()), T()) && SameLeaves(old(T()), T())
    {
      ghost var e := g.Num(v, level);
      assert T().TableOk(Pos(level, e / g.fan));
      f := FreshFrame();
      HangKeeps(T(), level, e, f, skip);
      HangPart(T(), level, e, f, skip);
      HangLeaves(T(), level, e, f, skip);
      tables := tables[table := tables[table][g.Num(v, level) % g.fan := Table(f)]][f := seq(g.fan, _ => Invalid)];
      at := at[Pos(level + 1, e) := f];
      assert T() == Hang(old(T()), level, e, f);
    }

    /** `map_page`: one block at one level, the tables above it added as needed. */
    method MapPage(v: nat, p: nat, block: nat)
      requires Sound() && 0 < v < g.Span(0) && 1 <= block <= g.levels
      requires v % g.Span(block) == 0 && p > 0 && p % g.Span(block) == 0 && Vacant(T(), v, g.Span(block))
      modifies this
      ensures Sound() && Part(old(T()), T()) && Gains(old(T()), T(), block, g.Num(v, block), p)
    {
      g.NumAtTop(v);
      var level, table := 1, root;
      ghost var skip := NOWHERE;
      while level < block
        invariant 1 <= level <= block && T().Valid(skip) && (skip == NOWHERE || skip == Pos(level, g.Num(v, level - 1)))
        invariant On(v, level, table) && Part(old(T()), T()) && SameLeaves(old(T()), T())
      {
        VacantStays(old(T()), T(), v, g.Span(block));
        NotLeaf(T(), v, level, g.Span(block));
        ghost var s;
        table, s := Descend(v, level, table, skip, old(T()));
        skip := s;
        level := level + 1;
      }
      VacantStays(old(T()), T(), v, g.Span(block));
      SetLeaf(v, p, block, table, skip, old(T()));
    }

    /** One turn of the loop: to the next table, a new one if there is none. */
    method Descend(v: nat, level: nat, table: nat, ghost skip: Pos, ghost t: Tree) returns (next: nat, ghost s: Pos)
      requires T().Valid(skip) && 1 <= level < g.levels && (skip == NOWHERE || skip == Pos(level, g.Num(v, level - 1)))
      requires On(v, level, table) && !T().EntryAt(level, g.Num(v, level)).Leaf? && Part(t, T()) && SameLeaves(t, T())
      modifies this
      ensures T().Valid(s) && (s == NOWHERE || s == Pos(level + 1, g.Num(v, level)))
      ensures On(v, level + 1, next) && Part(t, T()) && SameLeaves(t, T())
    {
      var x := GetEntry(table, level, v, skip);
      if x == Invalid {
        next := AllocTable(table, level, v, skip);
        s := Pos(level + 1, g.Num(v, level));
        PartOfPart(t, old(T()), T());
        SameLeavesTrans(t, old(T()), T());
      } else {
        next := x.next;
        TableIsUsed(T(), level, g.Num(v, level), skip);
        s := NOWHERE;
      }
    }

    method SetLeaf(v: nat, p: nat, block: nat, table: nat, ghost skip: Pos, ghost t: Tree)
      requires T().Valid(skip) && 1 <= block <= g.levels && (skip == NOWHERE || skip == Pos(block, g.Num(v, block - 1)))
      requires v % g.Span(block) == 0 && p > 0 && p % g.Span(block) == 0 && Vacant(T(), v, g.Span(block))
      requires On(v, block, table) && Part(t, T()) && SameLeaves(t, T())
      modifies this`tables
      ensures Sound() && Part(t, T()) && Gains(t, T(), block, g.Num(v, block), p)
    {
      ghost var e := g.Num(v, block);
      TargetIsFree(T(), v, block, skip);
      assert T().TableOk(Pos(block, e / g.fan));
      LeafKeeps(T(), block, e, p, skip);
      SetPart(T(), block, e, Leaf(p));
      SetLeaves(T(), block, e, Leaf(p));
      ghost var before := T();
      tables := tables[table := tables[table][g.Num(v, block) % g.fan := Leaf(p)]];
      assert T() == Set(before, block, e, Leaf(p));
      PartOfPart(t, before, T());
      GainsFrom(t, before, T(), block, e, p);
    }

    /** `generic_map_range`, in pages: the largest blocks that fit, one after the other. */
    method MapRange(v: nat, p: nat, n: nat) returns (mapped: nat)
      requires Valid() && 0 < v && v + n <= g.Span(0) && p > 0 && Vacant(T(), v, n)
      modifies this
      ensures Valid() && mapped == n
      ensures forall w: nat :: T().Translate(w) == if v <= w < v + n then p + (w - v) else old(T()).Translate(w)
      ensures Part(old(T()), T()) && Overlaid(old(T()), T(), BlocksOf(g, v, p, n))
    {
      mapped := MapBlocks(v, p, n);
      OverlayAllowed(old(T()), T(), v, p, n);
      forall w: nat ensures T().Translate(w) == if v <= w < v + n then p + (w - v) else old(T()).Translate(w) {
        OverlayTranslates(old(T()), T(), v, p, n, w);
      }
    }

    method MapBlocks(v: nat, p: nat, n: nat) returns (mapped: nat)
      requires Sound() && 0 < v && v + n <= g.Span(0) && p > 0 && Vacant(T(), v, n)
      modifies this
      ensures Sound() && mapped == n
      ensures Part(old(T()), T()) && Overlaid(old(T()), T(), BlocksOf(g, v, p, n))
    {
      mapped := 0;
      ghost var all := BlocksOf(g, v, p, n);
      PartSelf(T());
      while mapped < n
        invariant 0 <= mapped <= n && Sound() && Part(old(T()), T()) && Vacant(T(), v + mapped, n - mapped)
        invariant SameOverlay(old(T()), all, T(), BlocksOf(g, v + mapped, p + mapped, n - mapped))
      {
        var k := MapNext(v + mapped, p + mapped, n - mapped, old(T()), all);
        mapped := mapped + k;
      }
      NothingLeft(old(T()), T(), all, v + n, p + n);
    }

    /** One turn of the loop; the result is the number of pages mapped. */
    method MapNext(v: nat, p: nat, n: nat, ghost t: Tree, ghost all: Blocks) returns (k: nat)
      requires Sound() && 0 < v && n > 0 && v + n <= g.Span(0) && p > 0 && Vacant(T(), v, n)
      requires t.g == g && Part(t, T()) && SameOverlay(t, all, T(), BlocksOf(g, v, p, n))
      modifies this
      ensures Sound() && 0 < k <= n && Part(t, T()) && Vacant(T(), v + k, n - k)
      ensures SameOverlay(t, all, T(), BlocksOf(g, v + k, p + k, n - k))
    {
      var block := GetBlockLevel(v, p, n);
      k := g.Span(block);
      assert Vacant(T(), v, k);
      MapPage(v, p, block);
      FirstAndRest(g, v, p, n, block);
      ghost var f, h, d := BlocksOf(g, v, p, n), BlocksOf(g, v + k, p + k, n - k), g.Num(v, block);
      GainThenOverlay(old(T()), T(), f, h, block, d, p);
      OverlayTrans(t, all, old(T()), f, T(), h);
      PartOfPart(t, old(T()), T());
      VacantAfter(old(T()), T(), v, n, block, p);
    }

    /** `unmap_page`: clears one leaf and frees the tables that become empty, bottom up. */
    method UnmapPage(v: nat, p: nat, block: nat)
      requires Sound() && v < g.Span(0) && 1 <= block <= g.levels && T().LeafAt(block, g.Num(v, block)) == p > 0
      modifies this
      ensures Sound() && Part(T(), old(T())) && Gains(old(T()), T(), block, g.Num(v, block), 0)
    {
      g.NumAtTop(v);
      var level, path := 1, [0, root];
      while level < block
        invariant 1 <= level <= block && |path| == level + 1 && T() == old(T())
        invariant forall k :: 1 <= k <= level ==> On(v, k, path[k])
      {
        var x := GetEntry(path[level], level, v, NOWHERE);
        TableAboveLeaf(T(), v, level, block);
        path := path + [x.next];
        level := level + 1;
      }
      ClearLeaf(v, block, path[block]);
      while level > 1
        invariant 1 <= level <= block && T().Valid(Pos(level, g.Num(v, level - 1)))
        invariant forall k :: 1 <= k <= level ==> On(v, k, path[k])
        invariant Part(T(), old(T())) && Gains(old(T()), T(), block, g.Num(v, block), 0)
      {
        var empty := IsEmptyTable(path[level], v, level);
        if !empty {
          NoExemption(T(), Pos(level, g.Num(v, level - 1)));
          return;
        }
        level := level - 1;
        FreeTable(v, level, path, old(T()), block);
      }
      NoExemption(T(), Pos(1, g.Num(v, 0)));
    }

    method ClearLeaf(v: nat, block: nat, table: nat)
      requires Sound() && 1 <= block <= g.levels && On(v, block, table) && T().EntryAt(block, g.Num(v, block)).Leaf?
      modifies this`tables
      ensures T().Valid(Pos(block, g.Num(v, block - 1)))
      ensures Part(T(), old(T())) && Gains(old(T()), T(), block, g.Num(v, block), 0)
    {
      ghost var e := g.Num(v, block);
      ClearKeeps(T(), block, e);
      SetPart(T(), block, e, Invalid);
      SetLeaves(T(), block, e, Invalid);
      tables := tables[table := tables[table][g.Num(v, block) % g.fan := Invalid]];
      assert T() == Set(old(T()), block, e, Invalid);
    }

    /** `page_is_empty_table`. */
    method IsEmptyTable(table: nat, ghost v: nat, ghost level: nat) returns (empty: bool)
      requires g.Ok() && 1 <= level <= g.levels && T().Valid(Pos(level, g.Num(v, level - 1))) && On(v, level, table)
      ensures empty <==> T().Empty(Pos(level, g.Num(v, level - 1)))
    {
      ghost var pos := Pos(level, g.Num(v, level - 1));
      assert T().TableOk(pos);
      var i := 0;
      while i < g.fan
        invariant 0 <= i <= g.fan && forall j :: 0 <= j < i ==> tables[table][j] == Invalid
      {
        if tables[table][i] != Invalid {
          SlotIsUsed(T(), pos, i);
          return false;
        }
        i := i + 1;
      }
      return true;
    }

    /** Takes the empty table below `level` away. */
    method FreeTable(v: nat, level: nat, path: seq<nat>, ghost t: Tree, ghost block: nat)
      requires g.Ok() && 1 <= level < g.levels && level + 1 < |path| && T().Valid(Pos(level + 1, g.Num(v, level)))
      requires T().Empty(Pos(level + 1, g.Num(v, level))) && forall k :: 1 <= k <= level + 1 ==> On(v, k, path[k])
      requires block <= g.levels && Part(T(), t) && Gains(t, T(), block, g.Num(v, block), 0)
      modifies this
      ensures T().Valid(Pos(level, g.Num(v, level - 1))) && forall k :: 1 <= k <= level ==> On(v, k, path[k])
      ensures Part(T(), t) && Gains(t, T(), block, g.Num(v, block), 0)
    {
      ghost var e := g.Num(v, level);
      assert On(v, level, path[level]) && On(v, level + 1, path[level + 1]);
      DropKeeps(T(), level, e);
      DropPart(T(), level, e);
      assert T().UpOk(Pos(level + 1, e));
      DropLeaves(T(), level, e);
      tables := tables[path[level] := tables[path[level]][g.Num(v, level) % g.fan := Invalid]] - {path[level + 1]};
      at := at - {Pos(level + 1, e)};
      assert T() == Drop(old(T()), level, e);
      PartOfPart(T(), old(T()), t);
      GainsThen(t, old(T()), T(), block, g.Num(v, block));
    }

    /** `generic_unmap_range`, in pages. */
    method UnmapRange(v: nat, p: nat, n: nat) returns (unmapped: nat)
      requires Valid() && v + n <= g.Span(0) && p > 0 && Holds(T(), BlocksOf(g, v, p, n))
      modifies this
      ensures Valid() && unmapped == n
      ensures forall w: nat :: T().Translate(w) == if v <= w < v + n then 0 else old(T()).Translate(w)
      ensures Part(T(), old(T())) && Stripped(old(T()), T(), BlocksOf(g, v, p, n))
    {
      unmapped := UnmapBlocks(v, p, n);
      StripAllowed(old(T()), T(), BlocksOf(g, v, p, n));
      forall w: nat ensures T().Translate(w) == if v <= w < v + n then 0 else old(T()).Translate(w) {
        StripTranslates(old(T()), T(), v, p, n, w);
      }
    }

    method UnmapBlocks(v: nat, p: nat, n: nat) returns (unmapped: nat)
      requires Sound() && v + n <= g.Span(0) && p > 0 && Holds(T(), BlocksOf(g, v, p, n))
      modifies this
      ensures Sound() && unmapped == n
      ensures Part(T(), old(T())) && Stripped(old(T()), T(), BlocksOf(g, v, p, n))
    {
      unmapped := 0;
      var curV, curP, left := v, p, n;
      ghost var all := BlocksOf(g, v, p, n);
      ghost var rest := all;
      PartSelf(T());
      while left > 0
        invariant unmapped + left == n && curV == v + unmapped && curP == p + unmapped && Sound() && Part(T(), old(T()))
        invariant rest == BlocksOf(g, curV, curP, left) && Holds(T(), rest) && SameStrip(old(T()), all, T(), rest)
        decreases left
      {
        var k;
        k, rest := UnmapNext(curV, curP, left, old(T()), all, rest);
        unmapped, curV, curP, left := unmapped + k, curV + k, curP + k, left - k;
      }
      NothingToStrip(old(T()), T(), all, curV, curP);
    }

    method UnmapNext(v: nat, p: nat, n: nat, ghost t: Tree, ghost all: Blocks, ghost f: Blocks) returns (k: nat, ghost h: Blocks)
      requires Sound() && n > 0 && v + n <= g.Span(0) && p > 0 && f == BlocksOf(g, v, p, n) && Holds(T(), f)
      requires t.g == g && Part(T(), t) && SameStrip(t, all, T(), f)
      modifies this
      ensures Sound() && 0 < k <= n && Part(T(), t) && h == BlocksOf(g, v + k, p + k, n - k)
      ensures Holds(T(), h) && SameStrip(t, all, T(), h)
    {
      var block := GetBlockLevel(v, p, n);
      k := g.Span(block);
      HoldsFirst(T(), v, p, n, block);
      UnmapPage(v, p, block);
      FirstAndRest(g, v, p, n, block);
      h := BlocksOf(g, v + k, p + k, n - k);
      LoseThenStrip(old(T()), T(), f, h, block, g.Num(v, block), p);
      StripTrans(t, all, old(T()), f, T(), h);
      PartOfPart(T(), old(T()), t);
    }

    /** `generic_map_range` on addresses: whole pages around the range, in order. */
    method MapAddresses(vaddr: nat, paddr: nat, size: nat) returns (mapped: nat)
      requires Valid() && PAGE_SIZE <= vaddr && PageEnd(vaddr, size) <= g.Span(0) && PAGE_SIZE <= paddr
      requires Vacant(T(), vaddr / PAGE_SIZE, PageEnd(vaddr, size) - vaddr / PAGE_SIZE)
      modifies this
      ensures Valid() && mapped == PageEnd(vaddr, size) - vaddr / PAGE_SIZE
      ensures forall a: nat :: Address(T(), a) == MappedTo(old(T()), vaddr, paddr, size, a)
      ensures forall a: nat :: vaddr <= a < vaddr + size ==> Address(T(), a) == Rounded(paddr) + vaddr % PAGE_SIZE + (a - vaddr)
    {
      mapped := MapRange(vaddr / PAGE_SIZE, paddr / PAGE_SIZE, PageEnd(vaddr, size) - vaddr / PAGE_SIZE);
      forall a: nat ensures Address(T(), a) == MappedTo(old(T()), vaddr, paddr, size, a) {
        assert T().Translate(a / PAGE_SIZE) >= 0;
      }
    }

    /** Unmapping what was just mapped leaves the very same tables. */
    method MapThenUnmap(v: nat, p: nat, n: nat)
      requires Valid() && 0 < v && v + n <= g.Span(0) && p > 0 && Vacant(T(), v, n)
      modifies this
      ensures Valid() && tables == old(tables) && at == old(at)
    {
      var n1 := MapRange(v, p, n);
      ghost var mapped := T();
      OverlayHolds(old(T()), T(), BlocksOf(g, v, p, n));
      var n2 := UnmapRange(v, p, n);
      UnmapUndoesMap(old(T()), mapped, T(), v, p, n);
    }

    /** `page_get_block_level`. */
    method GetBlockLevel(v: nat, p: nat, n: nat) returns (b: nat)
      requires g.Ok() && n > 0
      ensures b == LevelFrom(g, v, p, n, 1)
      ensures 1 <= b <= g.levels && g.blocks[b - 1] && v % g.Span(b) == 0 && p % g.Span(b) == 0 && g.Span(b) <= n
      ensures forall j {:trigger g.Span(j)} :: 1 <= j < b ==>
        !(g.blocks[j - 1] && v % g.Span(j) == 0 && p % g.Span(j) == 0 && g.Span(j) <= n)
    {
      b := 1;
      while b < g.levels
        invariant 1 <= b <= g.levels && LevelFrom(g, v, p, n, b) == LevelFrom(g, v, p, n, 1)
      {
        if BlockFits(g, v, p, n, b) {
          return;
        }
        b := b + 1;
      }
    }

    /** The page allocator: any frame that is not in use. */
    method FreshFrame() returns (f: nat)
      ensures f > 0 && f !in tables
    {
      FreshExists(tables.Keys);
      f :| f > 0 && f !in tables;
    }
  }

  lemma {:induction false} AllBelowIsMany(s: set<nat>, n: nat)
    ensures (forall f :: 1 <= f <= n ==> f in s) ==> |s| >= n
    decreases n
  {
    if n > 0 && forall f :: 1 <= f <= n ==> f in s {
      AllBelowIsMany(s - {n}, n - 1);
    }
  }

  lemma FreshExists(s: set<nat>)
    ensures exists f: nat :: f > 0 && f !in s
  {
    AllBelowIsMany(s, |s| + 1);
  }
}
