/** Partitions of an address range into blocks, and the ways a block may be cut or joined. */
module Ranges {
  import opened Common
  import opened List

  function End(r: Range): int { r.base + r.size }

  predicate Has(r: Range, a: int) { r.base <= a < r.base + r.size }

  ghost predicate Clear(x: Range, y: Range) { End(x) <= y.base || End(y) <= x.base }

  ghost predicate Covered(m: multiset<Range>, a: int) { exists r :: r in m && Has(r, a) }

  /** The blocks of `m` lie in `lo .. hi`, do not overlap, and cover every address. */
  ghost predicate Partition(m: multiset<Range>, lo: int, hi: int) {
    && (forall r {:trigger m[r]} :: r in m ==> m[r] == 1 && r.size > 0 && lo <= r.base && End(r) <= hi)
    && (forall x, y {:trigger Clear(x, y)} :: x in m && y in m && x != y ==> Clear(x, y))
    && (forall a {:trigger Covered(m, a)} :: lo <= a < hi ==> Covered(m, a))
  }

  /** The parts `p` cover exactly the addresses of `r`. */
  ghost predicate Cuts(r: Range, p: multiset<Range>) { Partition(p, r.base, End(r)) }

  lemma CutPiece(m: multiset<Range>, lo: int, hi: int, r: Range, p: multiset<Range>, x: Range)
    requires Partition(m, lo, hi) && r in m && Cuts(r, p) && x in m - multiset{r} + p
    ensures (m - multiset{r} + p)[x] == 1 && x.size > 0 && lo <= x.base && End(x) <= hi
  {
    assert m[r] == 1 && m[x] <= 1 && p[x] <= 1;
    assert x in p && x in m && x != r ==> Clear(x, r);
  }

  lemma CutClear(m: multiset<Range>, lo: int, hi: int, r: Range, p: multiset<Range>, x: Range, y: Range)
    requires Partition(m, lo, hi) && r in m && Cuts(r, p) && x != y
    requires x in m - multiset{r} + p && y in m - multiset{r} + p
    ensures Clear(x, y)
  {
    assert m[r] == 1;
    if x in p {
      assert p[x] == 1;
      if y in p { assert Clear(x, y); } else { assert Clear(r, y); }
    } else {
      assert x in m && x != r;
      if y in p {
        assert p[y] == 1;
        assert Clear(x, r);
      } else {
        assert Clear(x, y);
      }
    }
  }

  /** Replacing a block by parts that cover it keeps the partition. */
  lemma CutKeepsPartition(m: multiset<Range>, lo: int, hi: int, r: Range, p: multiset<Range>)
    requires Partition(m, lo, hi) && r in m && Cuts(r, p)
    ensures Partition(m - multiset{r} + p, lo, hi)
  {
    var n := m - multiset{r} + p;
    forall x | x in n ensures n[x] == 1 && x.size > 0 && lo <= x.base && End(x) <= hi { CutPiece(m, lo, hi, r, p, x); }
    forall x, y | x in n && y in n && x != y ensures Clear(x, y) { CutClear(m, lo, hi, r, p, x, y); }
    forall a | lo <= a < hi ensures Covered(n, a) {
      assert Covered(m, a);
      var x :| x in m && Has(x, a);
      if x == r {
        assert Covered(p, a);
        var y :| y in p && Has(y, a);
        assert y in n;
      } else {
        assert x in n;
      }
    }
  }

  /** Joining two touching blocks keeps the partition. */
  lemma JoinKeepsPartition(m: multiset<Range>, lo: int, hi: int, x: Range, y: Range)
    requires Partition(m, lo, hi) && x in m && y in m && Touch(x, y)
    ensures Partition(m - multiset{x} - multiset{y} + multiset{Grow(x, y)}, lo, hi)
  {
    var g := Grow(x, y);
    var n := m - multiset{x} - multiset{y} + multiset{g};
    assert m[x] == 1 && m[y] == 1;
    assert g in m ==> m[g] == 1 && Clear(g, x);
    forall z | z in n ensures n[z] == 1 && z.size > 0 && lo <= z.base && End(z) <= hi {
      if z != g { assert m[z] == 1; }
    }
    forall z, w | z in n && w in n && z != w ensures Clear(z, w) { JoinClear(m, lo, hi, x, y, z, w); }
    forall a | lo <= a < hi ensures Covered(n, a) {
      assert Covered(m, a);
      var z :| z in m && Has(z, a);
      if z == x || z == y { assert g in n && Has(g, a); } else { assert z in n; }
    }
  }

  lemma JoinClear(m: multiset<Range>, lo: int, hi: int, x: Range, y: Range, z: Range, w: Range)
    requires Partition(m, lo, hi) && x in m && y in m && Touch(x, y) && z != w
    requires z in m - multiset{x} - multiset{y} + multiset{Grow(x, y)}
    requires w in m - multiset{x} - multiset{y} + multiset{Grow(x, y)}
    ensures Clear(z, w)
  {
    assert m[x] == 1 && m[y] == 1;
    var g := Grow(x, y);
    if z != g && w != g {
      assert Clear(z, w);
    } else {
      var o := if z == g then w else z;
      assert o in m && o != x && o != y;
      assert m[o] == 1;
      assert Clear(o, x) && Clear(o, y);
    }
  }

  // ---------------------------------------------------------------- lists of free blocks

  ghost predicate Gap(x: Range, y: Range) { End(x) < y.base }

  /** Ascending, and no two blocks touch. */
  ghost predicate Separated(s: seq<Range>) {
    forall i, j {:trigger Gap(s[i], s[j])} :: 0 <= i < j < |s| ==> Gap(s[i], s[j])
  }

  /** Separated, except that the block at `i` may touch its successor and, if `both`, its predecessor. */
  ghost predicate Near(s: seq<Range>, i: nat, both: bool)
    requires i < |s|
  {
    && (forall j, k {:trigger Gap(s[j], s[k])} :: 0 <= j < k < |s| && j != i && k != i ==> Gap(s[j], s[k]))
    && (forall j {:trigger Gap(s[j], s[i])} :: 0 <= j < i ==> Gap(s[j], s[i]) || (both && j == i - 1 && Touch(s[j], s[i])))
    && (forall k {:trigger Gap(s[i], s[k])} :: i < k < |s| ==> Gap(s[i], s[k]) || (k == i + 1 && Touch(s[i], s[k])))
    && s[i].size > 0
  }

  lemma MergeNextSeparates(s: seq<Range>, i: nat)
    requires i < |s| && Near(s, i, false) && forall j :: 0 <= j < |s| ==> s[j].size > 0
    ensures Separated(MergeNext(s, i))
  {
    var t := MergeNext(s, i);
    forall j, k | 0 <= j < k < |t| ensures Gap(t[j], t[k]) {
      if |t| == |s| {
        assert Gap(s[j], s[k]) || (j == i && k == i + 1);
      } else {
        var j', k' := if j <= i then j else j + 1, if k <= i then k else k + 1;
        assert Gap(s[j'], s[k']) || (j == i && k' == i + 1);
        assert j == i ==> Gap(s[i + 1], s[k']);
      }
    }
  }

  lemma MergePrevNear(s: seq<Range>, i: nat)
    requires 0 < i < |s| && Near(s, i, true) && Touch(s[i - 1], s[i]) && s[i - 1].size > 0
    ensures Near(MergePrev(s, i), i - 1, false)
  {
    var t := MergePrev(s, i);
    forall j, k | 0 <= j < k < |t| && j != i - 1 && k != i - 1 ensures Gap(t[j], t[k]) {
      var j', k' := if j < i then j else j + 1, if k < i then k else k + 1;
      assert Gap(s[j'], s[k']);
    }
    forall j | 0 <= j < i - 1 ensures Gap(t[j], t[i - 1]) { assert Gap(s[j], s[i - 1]); }
    forall k | i - 1 < k < |t| ensures Gap(t[i - 1], t[k]) || (k == i && Touch(t[i - 1], t[k])) {
      assert Gap(s[i], s[k + 1]) || (k == i && Touch(s[i], s[k + 1]));
    }
  }

  ghost predicate Sizes(s: seq<Range>) { forall j :: 0 <= j < |s| ==> s[j].size > 0 }

  lemma MergeAroundSeparates(s: seq<Range>, i: nat)
    requires i < |s| && Near(s, i, true) && Sizes(s)
    ensures Separated(MergeAround(s, i))
  {
    if i > 0 && Touch(s[i - 1], s[i]) {
      MergePrevNear(s, i);
      MergeNextSeparates(MergePrev(s, i), i - 1);
    } else {
      NoTouchNear(s, i);
      MergeNextSeparates(s, i);
    }
  }

  lemma NoTouchNear(s: seq<Range>, i: nat)
    requires i < |s| && Near(s, i, true) && (i == 0 || !Touch(s[i - 1], s[i]))
    ensures Near(s, i, false)
  {
    forall j | 0 <= j < i ensures Gap(s[j], s[i]) { assert Gap(s[j], s[i]) || j == i - 1; }
  }

  /** Inserting a block that overlaps none in a separated list leaves it separated but for touching neighbours. */
  lemma InsertIsNear(s: seq<Range>, x: Range)
    requires Separated(s) && Sizes(s) && x.size > 0 && forall j :: 0 <= j < |s| ==> Clear(s[j], x)
    ensures Near(InsertSorted(s, x), SortedIndex(s, x.base), true) && Sizes(InsertSorted(s, x))
  {
    var i := SortedIndex(s, x.base);
    forall k | i <= k < |s| ensures End(x) <= s[k].base && (k > i ==> End(x) < s[k].base) {
      assert k > i ==> Gap(s[i], s[k]);
      assert Clear(s[k], x) && Clear(s[i], x);
    }
    forall j | 0 <= j < i ensures End(s[j]) <= x.base && (j < i - 1 ==> End(s[j]) < x.base) {
      assert Clear(s[j], x);
      assert j < i - 1 ==> Gap(s[j], s[i - 1]);
    }
    NearAt(s, x, i);
  }

  lemma NearAt(s: seq<Range>, x: Range, i: nat)
    requires Separated(s) && Sizes(s) && x.size > 0 && i <= |s|
    requires forall k :: i <= k < |s| ==> End(x) <= s[k].base && (k > i ==> End(x) < s[k].base)
    requires forall j :: 0 <= j < i ==> End(s[j]) <= x.base && (j < i - 1 ==> End(s[j]) < x.base)
    ensures Near(Inserted(s, i, x), i, true) && Sizes(Inserted(s, i, x))
  {
    var t := Inserted(s, i, x);
    forall j, k | 0 <= j < k < |t| && j != i && k != i ensures Gap(t[j], t[k]) {
      assert Gap(s[if j < i then j else j - 1], s[if k < i then k else k - 1]);
    }
    forall j | 0 <= j < i ensures Gap(t[j], t[i]) || (j == i - 1 && Touch(t[j], t[i])) { assert t[j] == s[j]; }
    forall k | i < k < |t| ensures Gap(t[i], t[k]) || (k == i + 1 && Touch(t[i], t[k])) { assert t[k] == s[k - 1]; }
  }

  // ---------------------------------------------------------------- what merging does to the blocks

  lemma InsertedBag<T>(s: seq<T>, i: nat, x: T)
    requires i <= |s|
    ensures multiset(Inserted(s, i, x)) == multiset(s) + multiset{x}
  {
    assert s == s[..i] + s[i..];
  }

  lemma RemovedBag<T>(s: seq<T>, i: nat)
    requires i < |s|
    ensures multiset(Removed(s, i)) == multiset(s) - multiset{s[i]}
  {
    assert s == s[..i] + [s[i]] + s[i + 1..];
  }

  lemma UpdatedBag(s: seq<Range>, i: nat, x: Range)
    requires i < |s|
    ensures multiset(s[i := x]) == multiset(s) - multiset{s[i]} + multiset{x}
  {
  }

  /** Joining neighbours keeps a partition made of the list and any other blocks. */
  lemma MergeNextKeeps(s: seq<Range>, i: nat, rest: multiset<Range>, lo: int, hi: int)
    requires i < |s| && Partition(multiset(s) + rest, lo, hi)
    ensures Partition(multiset(MergeNext(s, i)) + rest, lo, hi)
  {
    if i + 1 < |s| && Touch(s[i], s[i + 1]) {
      var x, y := s[i], s[i + 1];
      var t := s[i := Grow(x, y)];
      UpdatedBag(s, i, Grow(x, y));
      RemovedBag(t, i + 1);
      assert x in multiset(s) && y in multiset(s);
      var m := multiset(s) + rest;
      assert m[x] == 1 && m[y] == 1;
      JoinKeepsPartition(m, lo, hi, x, y);
      assert multiset(MergeNext(s, i)) + rest == m - multiset{x} - multiset{y} + multiset{Grow(x, y)};
    }
  }

  lemma MergePrevKeeps(s: seq<Range>, i: nat, rest: multiset<Range>, lo: int, hi: int)
    requires 0 < i < |s| && Partition(multiset(s) + rest, lo, hi)
    ensures Partition(multiset(MergePrev(s, i)) + rest, lo, hi)
  {
    assert MergePrev(s, i) == MergeNext(s, i - 1);
    MergeNextKeeps(s, i - 1, rest, lo, hi);
  }

  lemma MergeAroundKeeps(s: seq<Range>, i: nat, rest: multiset<Range>, lo: int, hi: int)
    requires i < |s| && Partition(multiset(s) + rest, lo, hi)
    ensures Partition(multiset(MergeAround(s, i)) + rest, lo, hi)
  {
    if i > 0 && Touch(s[i - 1], s[i]) {
      MergePrevKeeps(s, i, rest, lo, hi);
      MergeNextKeeps(MergePrev(s, i), i - 1, rest, lo, hi);
    } else {
      MergeNextKeeps(s, i, rest, lo, hi);
    }
  }

  /** Returning a block to the free list: the list stays separated and the partition stands. */
  lemma InsertMergeKeeps(s: seq<Range>, x: Range, rest: multiset<Range>, lo: int, hi: int)
    requires Separated(s) && Partition(multiset(s) + multiset{x} + rest, lo, hi)
    ensures var t := MergeAround(InsertSorted(s, x), SortedIndex(s, x.base));
      Separated(t) && Partition(multiset(t) + rest, lo, hi)
  {
    var m, i := multiset(s) + multiset{x} + rest, SortedIndex(s, x.base);
    assert x in m && m[x] == 1;
    forall j | 0 <= j < |s| ensures Clear(s[j], x) && s[j].size > 0 {
      assert s[j] in multiset(s);
      assert m[s[j]] == 1;
    }
    InsertIsNear(s, x);
    MergeAroundSeparates(InsertSorted(s, x), i);
    InsertedBag(s, i, x);
    assert multiset(InsertSorted(s, x)) + rest == m;
    MergeAroundKeeps(InsertSorted(s, x), i, rest, lo, hi);
  }

  lemma NotCoveredAtEnd(s: seq<Range>, i: nat)
    requires Separated(s) && i < |s| && s[i].size > 0
    ensures !Covered(multiset(s), End(s[i]))
  {
    forall r | r in multiset(s) ensures !Has(r, End(s[i])) {
      var j :| 0 <= j < |s| && s[j] == r;
      assert i < j ==> Gap(s[i], s[j]);
      assert j < i ==> Gap(s[j], s[i]);
    }
  }

  /** A separated list that covers the whole range by itself is the one block that is the range. */
  lemma AloneIsWhole(s: seq<Range>, lo: int, hi: int)
    requires Separated(s) && Partition(multiset(s), lo, hi) && lo < hi
    ensures s == [Range(lo, hi - lo)]
  {
    var m := multiset(s);
    assert Covered(m, lo);
    var r :| r in m && Has(r, lo);
    assert m[r] == 1;
    var i :| 0 <= i < |s| && s[i] == r;
    NotCoveredAtEnd(s, i);
    assert End(r) < hi ==> Covered(m, End(r));
    assert s[0] in m && m[s[0]] == 1;
    assert i > 0 ==> Gap(s[0], s[i]);
    if |s| > 1 { NotLast(s, lo, hi); }
  }

  lemma NotLast(s: seq<Range>, lo: int, hi: int)
    requires Separated(s) && Partition(multiset(s), lo, hi) && |s| > 1
    ensures End(s[0]) < hi
  {
    assert s[1] in multiset(s) && multiset(s)[s[1]] == 1;
    assert Gap(s[0], s[1]);
  }

  // ---------------------------------------------------------------- the free list is determined

  lemma NotCoveredBefore(s: seq<Range>, i: nat)
    requires Separated(s) && i < |s| && s[i].size > 0
    ensures !Covered(multiset(s), s[i].base - 1)
  {
    forall r | r in multiset(s) ensures !Has(r, s[i].base - 1) {
      var j :| 0 <= j < |s| && s[j] == r;
      assert i < j ==> Gap(s[i], s[j]);
      assert j < i ==> Gap(s[j], s[i]);
    }
  }

  lemma FreeIsFree(s: seq<Range>, t: seq<Range>, busy: multiset<Range>, lo: int, hi: int, a: int)
    requires Partition(multiset(s) + busy, lo, hi) && Partition(multiset(t) + busy, lo, hi)
    requires Covered(multiset(s), a)
    ensures Covered(multiset(t), a)
  {
    var m, n := multiset(s) + busy, multiset(t) + busy;
    var r :| r in multiset(s) && Has(r, a);
    assert m[r] == 1;
    assert Covered(n, a);
    var x :| x in n && Has(x, a);
    assert x in busy ==> x in m && !Clear(x, r);
    assert x in multiset(t);
  }

  /** Each free block of one is a free block of the other. */
  lemma RunIsBlock(s: seq<Range>, t: seq<Range>, busy: multiset<Range>, lo: int, hi: int, i: nat)
    requires Partition(multiset(s) + busy, lo, hi) && Partition(multiset(t) + busy, lo, hi)
    requires Separated(s) && Separated(t) && i < |s|
    ensures s[i] in t
  {
    var r := s[i];
    assert r in multiset(s) && (multiset(s) + busy)[r] == 1;
    assert Has(r, r.base);
    FreeIsFree(s, t, busy, lo, hi, r.base);
    var y :| y in multiset(t) && Has(y, r.base);
    assert (multiset(t) + busy)[y] == 1;
    var j :| 0 <= j < |t| && t[j] == y;
    if y.base < r.base {
      assert Has(y, r.base - 1);
      FreeIsFree(t, s, busy, lo, hi, r.base - 1);
      NotCoveredBefore(s, i);
    } else if End(y) > End(r) {
      assert Has(y, End(r));
      FreeIsFree(t, s, busy, lo, hi, End(r));
      NotCoveredAtEnd(s, i);
    } else if End(y) < End(r) {
      assert Has(r, End(y));
      FreeIsFree(s, t, busy, lo, hi, End(y));
      NotCoveredAtEnd(t, j);
    }
  }

  lemma {:induction false} SameElementsSameList(s: seq<Range>, t: seq<Range>)
    requires Separated(s) && Separated(t) && Sizes(s) && Sizes(t)
    requires (forall i :: 0 <= i < |s| ==> s[i] in t) && (forall j :: 0 <= j < |t| ==> t[j] in s)
    ensures s == t
  {
    assert (s != [] ==> s[0] in t) && (t != [] ==> t[0] in s);
    if s == [] { return; }
    var i :| 0 <= i < |s| && s[i] == t[0];
    var j :| 0 <= j < |t| && t[j] == s[0];
    assert i > 0 ==> Gap(s[0], s[i]);
    assert j > 0 ==> Gap(t[0], t[j]);
    TailSeparated(s);
    TailSeparated(t);
    SameElementsSameList(s[1..], t[1..]);
    assert s == [s[0]] + s[1..] && t == [t[0]] + t[1..];
  }

  lemma TailSeparated(s: seq<Range>)
    requires Separated(s) && Sizes(s) && |s| > 0
    ensures Separated(s[1..]) && Sizes(s[1..]) && s[0] !in s[1..]
  {
    forall i, j | 0 <= i < j < |s| - 1 ensures Gap(s[1..][i], s[1..][j]) { assert Gap(s[i + 1], s[j + 1]); }
    forall i | 0 <= i < |s| - 1 ensures s[1..][i] != s[0] { assert Gap(s[0], s[i + 1]); }
  }

  /** The free list is a function of the busy blocks: no history leaves it fragmented. */
  lemma SameBusySameFree(s: seq<Range>, t: seq<Range>, busy: multiset<Range>, lo: int, hi: int)
    requires Partition(multiset(s) + busy, lo, hi) && Partition(multiset(t) + busy, lo, hi)
    requires Separated(s) && Separated(t)
    ensures s == t
  {
    forall i | 0 <= i < |s| ensures s[i] in t && s[i].size > 0 {
      RunIsBlock(s, t, busy, lo, hi, i);
      assert s[i] in multiset(s) && (multiset(s) + busy)[s[i]] == 1;
    }
    forall j | 0 <= j < |t| ensures t[j] in s && t[j].size > 0 {
      RunIsBlock(t, s, busy, lo, hi, j);
      assert t[j] in multiset(t) && (multiset(t) + busy)[t[j]] == 1;
    }
    SameElementsSameList(s, t);
  }

  // ---------------------------------------------------------------- cutting

  lemma CutTwo(r: Range, x: Range, y: Range)
    requires x.size > 0 && y.size > 0 && x.base == r.base && End(x) == y.base && End(y) == End(r)
    ensures Cuts(r, multiset{x, y})
  {
    forall a | r.base <= a < End(r) ensures Covered(multiset{x, y}, a) { assert Has(x, a) || Has(y, a); }
  }

  lemma CutThree(r: Range, x: Range, y: Range, z: Range)
    requires x.size > 0 && y.size > 0 && z.size > 0
    requires x.base == r.base && End(x) == y.base && End(y) == z.base && End(z) == End(r)
    ensures Cuts(r, multiset{x, y, z})
  {
    forall a | r.base <= a < End(r) ensures Covered(multiset{x, y, z}, a) { assert Has(x, a) || Has(y, a) || Has(z, a); }
  }

  lemma ShrinkSeparated(s: seq<Range>, i: nat, x: Range)
    requires Separated(s) && i < |s| && s[i].base <= x.base && End(x) <= End(s[i])
    ensures Separated(s[i := x])
  {
    var t := s[i := x];
    forall j, k | 0 <= j < k < |t| ensures Gap(t[j], t[k]) { assert Gap(s[j], s[k]); }
  }

  lemma RemovedSeparated(s: seq<Range>, i: nat)
    requires Separated(s) && i < |s|
    ensures Separated(Removed(s, i))
  {
    var t := Removed(s, i);
    forall j, k | 0 <= j < k < |t| ensures Gap(t[j], t[k]) {
      assert Gap(s[if j < i then j else j + 1], s[if k < i then k else k + 1]);
    }
  }

  lemma SplitSeparated(s: seq<Range>, i: nat, x: Range, y: Range)
    requires Separated(s) && i < |s| && x.base == s[i].base && End(x) < y.base && End(y) == End(s[i])
    requires x.size > 0 && y.size > 0
    ensures Separated(Inserted(s[i := x], i + 1, y))
  {
    var t := Inserted(s[i := x], i + 1, y);
    forall j, k | 0 <= j < k < |t| ensures Gap(t[j], t[k]) {
      var j', k' := if j <= i then j else j - 1, if k <= i then k else k - 1;
      assert j' < k' ==> Gap(s[j'], s[k']);
    }
  }
}
