/** The abstract state of one buddy region: which aligned blocks tile it and which of
    them are free.  No lists, no node metadata.  The main theorem is that a tiling
    without two free buddies is determined by its set of free pages. */
module BuddyShape {
  import opened Pow2

  const MAX_ORDER: nat := 15

  /** `order` maps the first page of every block to the block's order; `free` holds the
      first pages of the free blocks, all other blocks are in use. */
  datatype Shape = Shape(lo: nat, hi: nat, order: map<nat, nat>, free: set<nat>) {

    ghost predicate BlockOk(h: nat)
      requires h in order
    {
      order[h] <= MAX_ORDER && Aligned(h, order[h]) && lo <= h && h + Pow(order[h]) <= hi
    }

    ghost predicate Apart(g: nat, h: nat)
      requires g in order && h in order
    {
      g + Pow(order[g]) <= h || h + Pow(order[h]) <= g
    }

    ghost predicate Holds(h: nat, p: nat) { h in order && h <= p < h + Pow(order[h]) }

    ghost predicate Covered(p: nat) { exists h: nat :: Holds(h, p) }

    /** The blocks partition the pages `lo .. hi`. */
    ghost predicate Tiled() {
      && lo <= hi
      && free <= order.Keys
      && (forall h {:trigger BlockOk(h)} :: h in order ==> BlockOk(h))
      && (forall g, h {:trigger Apart(g, h)} :: g in order && h in order && g != h ==> Apart(g, h))
      && (forall p: nat :: lo <= p < hi ==> Covered(p))
    }

    ghost predicate FreePage(p: nat) { exists h :: h in free && Holds(h, p) }

    ghost function FreePages(): set<nat> { set p: nat | lo <= p < hi && FreePage(p) }

    /** `p` and the block after it are free buddies below the maximal order. */
    ghost predicate FreePair(p: nat) {
      && p in free && p in order && order[p] < MAX_ORDER && Aligned(p, order[p] + 1)
      && p + Pow(order[p]) in free && p + Pow(order[p]) in order && order[p + Pow(order[p])] == order[p]
    }

    ghost predicate Coalesced() { forall p: nat :: !FreePair(p) }

    /** The only free buddies, if any, are `x` and its buddy. */
    ghost predicate CoalescedBut(x: nat) {
      forall p: nat :: FreePair(p) ==> p == x || p + Pow(order[p]) == x
    }

    ghost function Split(h: nat): Shape
      requires h in order && order[h] > 0
    {
      var k := order[h] - 1;
      Shape(lo, hi, order[h := k][h + Pow(k) := k], free + {h + Pow(k)})
    }

    ghost function Merge(p: nat): Shape
      requires p in order
    {
      var m := p + Pow(order[p]);
      Shape(lo, hi, (order - {m})[p := order[p] + 1], free - {m})
    }

    ghost function Take(h: nat): Shape { this.(free := free - {h}) }

    ghost function Give(h: nat): Shape { this.(free := free + {h}) }
  }

  predicate Within(h: nat, k: nat, p: nat) { h <= p < h + Pow(k) }

  function BlockPages(h: nat, k: nat): set<nat> {
    set p: nat | h <= p < h + Pow(k) && Within(h, k, p)
  }

  // ---------------------------------------------------------------- canonical form

  ghost predicate Run(pages: set<nat>, p: nat, k: nat) {
    forall x: nat :: Within(p, k, x) ==> x in pages
  }

  function Parent(p: nat, k: nat): nat {
    if Aligned(p, k + 1) || p < Pow(k) then p else p - Pow(k)
  }

  /** The block is as large as alignment, the free pages and the order limit allow. */
  ghost predicate Maximal(pages: set<nat>, p: nat, k: nat) {
    && k <= MAX_ORDER && Aligned(p, k) && Run(pages, p, k)
    && (k < MAX_ORDER ==> !Run(pages, Parent(p, k), k + 1))
  }

  lemma ParentContains(p: nat, k: nat)
    requires Aligned(p, k)
    ensures Aligned(Parent(p, k), k + 1)
    ensures Parent(p, k) <= p && p + Pow(k) <= Parent(p, k) + Pow(k + 1)
  {
    if !Aligned(p, k + 1) { LowerHalf(p, k); }
  }

  lemma OrderFromSize(j: nat, k: nat)
    requires Pow(k) <= Pow(j)
    ensures k <= j
  {
    if j < k { PowStrict(j, k); }
  }

  lemma SubRun(pages: set<nat>, p: nat, k: nat, q: nat, j: nat)
    requires Run(pages, p, k) && p <= q && q + Pow(j) <= p + Pow(k)
    ensures Run(pages, q, j)
  {
    forall x: nat | Within(q, j, x) ensures x in pages { assert Within(p, k, x); }
  }

  /** Two free blocks that hold the halves of an aligned run: one of them holds all of it, or they
      are the halves and could be merged. */
  lemma HalvesMeet(s: Shape, p: nat, k: nat, h: nat, g: nat)
    requires s.Tiled() && s.Coalesced() && 0 < k <= MAX_ORDER && Aligned(p, k) && h in s.free && g in s.free
    requires h <= p && p + Pow(k - 1) <= h + Pow(s.order[h]) && k - 1 <= s.order[h]
    requires g <= p + Pow(k - 1) && p + Pow(k) <= g + Pow(s.order[g]) && k - 1 <= s.order[g]
    ensures s.order[h] >= k || s.order[g] >= k
  {
    var m := p + Pow(k - 1);
    assert s.BlockOk(h) && s.BlockOk(g);
    assert s.order[h] == s.order[g] == k - 1 ==> h == p && g == m;
    assert !s.FreePair(p);
  }

  /** In a coalesced tiling, an aligned run of free pages lies inside one free block. */
  lemma {:induction false} RunInOneBlock(s: Shape, p: nat, k: nat) returns (h: nat)
    requires s.Tiled() && s.Coalesced()
    requires k <= MAX_ORDER && Aligned(p, k) && Run(s.FreePages(), p, k)
    ensures h in s.free && h in s.order && h <= p && p + Pow(k) <= h + Pow(s.order[h]) && k <= s.order[h]
    decreases k
  {
    if k == 0 {
      assert Within(p, 0, p);
      assert s.FreePage(p);
      h :| h in s.free && s.Holds(h, p);
    } else {
      var m := p + Pow(k - 1);
      AlignedDown(p, k - 1, k);
      UpperHalf(p, k - 1);
      SubRun(s.FreePages(), p, k, p, k - 1);
      SubRun(s.FreePages(), p, k, m, k - 1);
      h := RunInOneBlock(s, p, k - 1);
      var g := RunInOneBlock(s, m, k - 1);
      HalvesMeet(s, p, k, h, g);
      if s.order[h] < k {
        h := g;
      }
      assert s.BlockOk(h);
      Laminar(p, k, h, s.order[h]);
    }
  }

  lemma PageInOneBlock(s: Shape, g: nat, h: nat, p: nat)
    requires s.Tiled() && s.Holds(g, p) && s.Holds(h, p)
    ensures g == h
  {
    assert g != h ==> s.Apart(g, h);
  }

  lemma BlockIsRun(s: Shape, h: nat)
    requires s.Tiled() && h in s.free
    ensures Run(s.FreePages(), h, s.order[h])
  {
    assert s.BlockOk(h);
    forall x: nat | Within(h, s.order[h], x) ensures x in s.FreePages() { assert s.Holds(h, x); }
  }

  lemma FreeBlockIsMaximal(s: Shape, p: nat)
    requires s.Tiled() && s.Coalesced() && p in s.free
    ensures Maximal(s.FreePages(), p, s.order[p])
  {
    var k := s.order[p];
    assert s.BlockOk(p);
    BlockIsRun(s, p);
    if k < MAX_ORDER && Run(s.FreePages(), Parent(p, k), k + 1) {
      ParentContains(p, k);
      var h := RunInOneBlock(s, Parent(p, k), k + 1);
      PageInOneBlock(s, h, p, p);
    }
  }

  lemma LargerBlockHasParent(s: Shape, p: nat, k: nat, h: nat)
    requires s.Tiled() && h in s.free && Aligned(p, k) && s.Holds(h, p) && k < s.order[h]
    ensures Run(s.FreePages(), Parent(p, k), k + 1)
  {
    assert s.BlockOk(h);
    BlockIsRun(s, h);
    ParentContains(p, k);
    Laminar(Parent(p, k), k + 1, h, s.order[h]);
    SubRun(s.FreePages(), h, s.order[h], Parent(p, k), k + 1);
  }

  lemma MaximalIsFreeBlock(s: Shape, p: nat, k: nat)
    requires s.Tiled() && s.Coalesced() && Maximal(s.FreePages(), p, k)
    ensures p in s.free && s.order[p] == k
  {
    var h := RunInOneBlock(s, p, k);
    assert s.BlockOk(h);
    if s.order[h] > k { LargerBlockHasParent(s, p, k, h); }
  }

  /** History independence: the free blocks are a function of the free pages alone. */
  lemma SameFreePagesSameFreeBlocks(s: Shape, t: Shape)
    requires s.Tiled() && s.Coalesced() && t.Tiled() && t.Coalesced()
    requires s.FreePages() == t.FreePages()
    ensures s.free == t.free && forall p :: p in s.free ==> s.order[p] == t.order[p]
  {
    forall p: nat | p in s.free ensures p in t.free && t.order[p] == s.order[p] {
      FreeBlockIsMaximal(s, p);
      MaximalIsFreeBlock(t, p, s.order[p]);
    }
    forall p: nat | p in t.free ensures p in s.free {
      FreeBlockIsMaximal(t, p);
      MaximalIsFreeBlock(s, p, t.order[p]);
    }
  }

  ghost function Used(s: Shape): map<nat, nat> {
    map h | h in s.order && h !in s.free :: s.order[h]
  }

  /** The whole tiling is a function of the blocks in use: freeing what was allocated restores
      exactly the blocks there were, whatever was allocated and freed in between. */
  lemma SameUsedSameShape(s: Shape, t: Shape)
    requires s.Tiled() && s.Coalesced() && t.Tiled() && t.Coalesced()
    requires s.lo == t.lo && s.hi == t.hi && Used(s) == Used(t)
    ensures s == t
  {
    FreeUnlessUsed(s, t);
    FreeUnlessUsed(t, s);
    assert s.FreePages() == t.FreePages();
    SameFreePagesSameFreeBlocks(s, t);
    forall h | h in s.order ensures h in t.order && t.order[h] == s.order[h] { assert h in s.free || h in Used(s); }
    forall h | h in t.order ensures h in s.order { assert h in t.free || h in Used(t); }
    assert s.order == t.order;
  }

  lemma FreeUnlessUsed(s: Shape, t: Shape)
    requires s.Tiled() && t.Tiled() && s.lo == t.lo && s.hi == t.hi && Used(s) == Used(t)
    ensures s.FreePages() <= t.FreePages()
  {
    forall p: nat | p in s.FreePages() ensures p in t.FreePages() {
      var h: nat :| h in s.free && s.Holds(h, p);
      assert t.Covered(p);
      var g: nat :| t.Holds(g, p);
      if g !in t.free {
        assert g in Used(t);
        PageInOneBlock(s, g, h, p);
      }
    }
  }

  // ---------------------------------------------------------------- operations

  lemma SplitTiles(s: Shape, h: nat)
    requires s.Tiled() && h in s.free && s.order[h] > 0
    ensures s.Split(h).Tiled()
    ensures h + Pow(s.order[h] - 1) !in s.order
  {
    var k := s.order[h] - 1;
    var m := h + Pow(k);
    assert s.BlockOk(h);
    assert m in s.order ==> s.Apart(h, m);
    SplitBlocksOk(s, h, k);
    forall p: nat | s.lo <= p < s.hi ensures s.Split(h).Covered(p) {
      assert s.Covered(p);
      var g: nat :| s.Holds(g, p);
      assert s.Split(h).Holds(if g == h && p >= m then m else g, p);
    }
  }

  lemma SplitBlocksOk(s: Shape, h: nat, k: nat)
    requires s.Tiled() && h in s.order && s.order[h] == k + 1 && h + Pow(k) !in s.order
    ensures var t := s.Split(h);
      && (forall b {:trigger t.BlockOk(b)} :: b in t.order ==> t.BlockOk(b))
      && (forall a, b {:trigger t.Apart(a, b)} :: a in t.order && b in t.order && a != b ==> t.Apart(a, b))
  {
    var m := h + Pow(k);
    var t := s.Split(h);
    assert s.BlockOk(h);
    AlignedDown(h, k, k + 1);
    UpperHalf(h, k);
    forall b | b in t.order ensures t.BlockOk(b) {
      if b != h && b != m { assert s.BlockOk(b); }
    }
    forall a, b | a in t.order && b in t.order && a != b ensures t.Apart(a, b) {
      var a' := if a == m then h else a;
      var b' := if b == m then h else b;
      if a' != b' { assert s.Apart(a', b'); }
    }
  }

  lemma SplitHolds(s: Shape, h: nat, g: nat, p: nat)
    requires h in s.order && s.order[h] > 0 && h + Pow(s.order[h] - 1) !in s.order
    ensures var m := h + Pow(s.order[h] - 1); var t := s.Split(h);
      && (g != h && g != m ==> (s.Holds(g, p) <==> t.Holds(g, p)))
      && (s.Holds(h, p) <==> t.Holds(h, p) || t.Holds(m, p))
  {
  }

  lemma SplitKeepsPages(s: Shape, h: nat)
    requires s.Tiled() && h in s.free && s.order[h] > 0
    ensures s.Split(h).FreePages() == s.FreePages()
  {
    var m := h + Pow(s.order[h] - 1);
    SplitTiles(s, h);
    forall p: nat ensures s.Split(h).FreePage(p) <==> s.FreePage(p) {
      forall g: nat { SplitHolds(s, h, g, p); }
      if s.FreePage(p) {
        var g :| g in s.free && s.Holds(g, p);
        assert s.Split(h).Holds(g, p) || s.Split(h).Holds(m, p);
      }
      if s.Split(h).FreePage(p) {
        var g :| g in s.Split(h).free && s.Split(h).Holds(g, p);
        assert s.Holds(if g == m then h else g, p);
      }
    }
  }

  lemma MergeTiles(s: Shape, p: nat)
    requires s.Tiled() && s.FreePair(p)
    ensures s.Merge(p).Tiled()
  {
    var m := p + Pow(s.order[p]);
    var t := s.Merge(p);
    assert s.BlockOk(p) && s.BlockOk(m);
    forall b | b in t.order ensures t.BlockOk(b) {
      if b != p { assert s.BlockOk(b); }
    }
    forall a, b | a in t.order && b in t.order && a != b ensures t.Apart(a, b) {
      assert s.Apart(a, b);
      if a == p { assert s.Apart(m, b); }
      if b == p { assert s.Apart(a, m); }
    }
    forall x: nat | t.lo <= x < t.hi ensures t.Covered(x) {
      assert s.Covered(x);
      var g: nat :| s.Holds(g, x);
      assert t.Holds(if g == m then p else g, x);
    }
  }

  lemma MergeKeepsPages(s: Shape, p: nat)
    requires s.Tiled() && s.FreePair(p)
    ensures s.Merge(p).FreePages() == s.FreePages()
  {
    var m := p + Pow(s.order[p]);
    var t := s.Merge(p);
    forall x: nat ensures t.FreePage(x) <==> s.FreePage(x) {
      if s.FreePage(x) {
        var g :| g in s.free && s.Holds(g, x);
        var g' := if g == m then p else g;
        assert g' in t.free && t.Holds(g', x);
      }
      if t.FreePage(x) {
        var g :| g in t.free && t.Holds(g, x);
        var g' := if g == p && x >= m then m else g;
        assert g' in s.free && s.Holds(g', x);
      }
    }
  }

  lemma RetagTiles(s: Shape, t: Shape)
    requires s.Tiled() && t == s.(free := t.free) && t.free <= s.order.Keys
    ensures t.Tiled()
  {
    forall p: nat | t.lo <= p < t.hi ensures t.Covered(p) {
      assert s.Covered(p);
      var g: nat :| s.Holds(g, p);
      assert t.Holds(g, p);
    }
    forall b | b in t.order ensures t.BlockOk(b) { assert s.BlockOk(b); }
    forall a, b | a in t.order && b in t.order && a != b ensures t.Apart(a, b) { assert s.Apart(a, b); }
  }

  lemma TakeTiles(s: Shape, h: nat)
    requires s.Tiled() && h in s.free
    ensures s.Take(h).Tiled()
    ensures s.Take(h).FreePages() == s.FreePages() - BlockPages(h, s.order[h])
  {
    var t := s.Take(h);
    RetagTiles(s, t);
    forall x: nat ensures t.FreePage(x) <==> s.FreePage(x) && !Within(h, s.order[h], x) {
      if s.FreePage(x) && !Within(h, s.order[h], x) {
        var g :| g in s.free && s.Holds(g, x);
        assert g in t.free && t.Holds(g, x);
      }
      if t.FreePage(x) {
        var g :| g in t.free && t.Holds(g, x);
        assert g in s.free && s.Holds(g, x);
        if Within(h, s.order[h], x) {
          assert s.Holds(h, x);
          PageInOneBlock(s, g, h, x);
        }
      }
    }
  }

  lemma GiveTiles(s: Shape, h: nat)
    requires s.Tiled() && h in s.order && h !in s.free
    ensures s.Give(h).Tiled()
    ensures s.Give(h).FreePages() == s.FreePages() + BlockPages(h, s.order[h])
  {
    var t := s.Give(h);
    RetagTiles(s, t);
    assert s.BlockOk(h);
    forall x: nat ensures t.FreePage(x) <==> s.FreePage(x) || Within(h, s.order[h], x) {
      if s.FreePage(x) {
        var g :| g in s.free && s.Holds(g, x);
        assert g in t.free && t.Holds(g, x);
      }
      if Within(h, s.order[h], x) { assert h in t.free && t.Holds(h, x); }
      if t.FreePage(x) {
        var g :| g in t.free && t.Holds(g, x);
        if g != h { assert g in s.free && s.Holds(g, x); }
      }
    }
  }

  // ---------------------------------------------------------------- coalescing

  /** Splitting leaves one pair of free buddies: the two halves. */
  lemma SplitCoalesces(s: Shape, h: nat)
    requires s.Tiled() && h in s.free && s.order[h] > 0 && s.CoalescedBut(h)
    ensures s.Split(h).CoalescedBut(h + Pow(s.order[h] - 1))
  {
    assert s.BlockOk(h);
    UpperHalf(h, s.order[h] - 1);
    SplitTiles(s, h);
    HalvesAreTheOnlyPair(s, h);
  }

  lemma HalvesAreTheOnlyPair(s: Shape, h: nat)
    requires h in s.free && h in s.order && s.order[h] > 0 && s.CoalescedBut(h)
    requires Aligned(h, s.order[h]) && !Aligned(h + Pow(s.order[h] - 1), s.order[h])
    requires h + Pow(s.order[h] - 1) !in s.order
    ensures s.Split(h).CoalescedBut(h + Pow(s.order[h] - 1))
  {
    forall q: nat | s.Split(h).FreePair(q) ensures q == h { SplitPair(s, h, q); }
  }

  lemma SplitPair(s: Shape, h: nat, q: nat)
    requires h in s.free && h in s.order && s.order[h] > 0 && s.CoalescedBut(h)
    requires Aligned(h, s.order[h]) && !Aligned(h + Pow(s.order[h] - 1), s.order[h])
    requires h + Pow(s.order[h] - 1) !in s.order && s.Split(h).FreePair(q)
    ensures q == h
  {
    var k := s.order[h] - 1;
    var m := h + Pow(k);
    var t := s.Split(h);
    var r := q + Pow(t.order[q]);
    assert q != m;
    if r == h { UpperHalf(q, k); }
    assert r == m ==> t.order[q] == k;
    assert q != h && r != m ==> s.FreePair(q);
  }

  lemma TakeCoalesces(s: Shape, h: nat)
    requires s.CoalescedBut(h)
    ensures s.Take(h).Coalesced()
  {
    var t := s.Take(h);
    forall q: nat ensures !t.FreePair(q) { assert t.FreePair(q) ==> s.FreePair(q); }
  }

  lemma GiveCoalesces(s: Shape, h: nat)
    requires s.Coalesced()
    ensures s.Give(h).CoalescedBut(h)
  {
    var t := s.Give(h);
    forall q: nat | t.FreePair(q) ensures q == h || q + Pow(t.order[q]) == h {
      if q != h && q + Pow(t.order[q]) != h { assert s.FreePair(q); }
    }
  }

  lemma MergeCoalesces(s: Shape, p: nat, x: nat)
    requires s.Tiled() && s.FreePair(p) && s.CoalescedBut(x)
    requires x == p || x == p + Pow(s.order[p])
    ensures s.Merge(p).CoalescedBut(p)
  {
    var t := s.Merge(p);
    forall q: nat | t.FreePair(q) ensures q == p || q + Pow(t.order[q]) == p {
      assert q == p || q + Pow(t.order[q]) == p || s.FreePair(q);
    }
  }

  /** If the suspect block has no free buddy, the tiling is coalesced. */
  lemma NoBuddyMeansCoalesced(s: Shape, x: nat)
    requires s.Tiled() && x in s.free && s.CoalescedBut(x)
    requires s.order[x] == MAX_ORDER || !s.FreePair(Parent(x, s.order[x]))
    ensures s.Coalesced()
  {
    assert s.BlockOk(x);
    forall q: nat ensures !s.FreePair(q) {
      if s.FreePair(q) && q != x { UpperHalf(q, s.order[q]); }
    }
  }

  // ---------------------------------------------------------------- creation

  /** Every block is as large as its start and the end of the region allow. */
  ghost predicate Greedy(s: Shape, limit: nat) {
    forall h {:trigger s.BlockOk(h)} :: h in s.order && s.order[h] < MAX_ORDER ==>
      !(Aligned(h, s.order[h] + 1) && h + Pow(s.order[h] + 1) <= limit)
  }

  ghost function Extend(s: Shape, k: nat): Shape {
    Shape(s.lo, s.hi + Pow(k), s.order[s.hi := k], s.free + {s.hi})
  }

  lemma ExtendTiles(s: Shape, k: nat)
    requires s.Tiled() && k <= MAX_ORDER && Aligned(s.hi, k)
    ensures Extend(s, k).Tiled() && s.hi !in s.order
  {
    var t := Extend(s, k);
    assert s.hi in s.order ==> s.BlockOk(s.hi);
    forall b | b in t.order ensures t.BlockOk(b) {
      if b != s.hi { assert s.BlockOk(b); }
    }
    forall a, b | a in t.order && b in t.order && a != b ensures t.Apart(a, b) {
      if a != s.hi && b != s.hi { assert s.Apart(a, b); }
      if a in s.order { assert s.BlockOk(a); }
      if b in s.order { assert s.BlockOk(b); }
    }
    forall p: nat | t.lo <= p < t.hi ensures t.Covered(p) {
      if p < s.hi {
        assert s.Covered(p);
        var g: nat :| s.Holds(g, p);
        assert s.BlockOk(g);
        assert t.Holds(g, p);
      } else {
        assert t.Holds(s.hi, p);
      }
    }
  }

  lemma ExtendGreedy(s: Shape, k: nat, limit: nat)
    requires s.Tiled() && Greedy(s, limit) && s.hi !in s.order
    requires k < MAX_ORDER ==> !(Aligned(s.hi, k + 1) && s.hi + Pow(k + 1) <= limit)
    ensures Greedy(Extend(s, k), limit)
  {
    forall h | h in Extend(s, k).order && Extend(s, k).order[h] < MAX_ORDER
      ensures !(Aligned(h, Extend(s, k).order[h] + 1) && h + Pow(Extend(s, k).order[h] + 1) <= limit)
    {
      if h != s.hi { assert s.BlockOk(h); }
    }
  }

  lemma PairFits(s: Shape, p: nat)
    requires s.Tiled() && s.FreePair(p)
    ensures s.BlockOk(p) && p + Pow(s.order[p] + 1) <= s.hi
  {
    assert s.BlockOk(p + Pow(s.order[p]));
  }

  lemma GreedyIsCoalesced(s: Shape)
    requires s.Tiled() && Greedy(s, s.hi)
    ensures s.Coalesced()
  {
    forall p: nat ensures !s.FreePair(p) {
      if s.FreePair(p) { PairFits(s, p); }
    }
  }
}
