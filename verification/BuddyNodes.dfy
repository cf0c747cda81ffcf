/** The concrete state of one buddy region as values: per-page nodes, list head words and
    the free lists threaded through the nodes, and the relation to the abstract shape. */
module BuddyNodes {
  import opened Common
  import opened Pow2
  import opened BuddyShape

  const ORDER_COUNT: nat := MAX_ORDER + 1

  /** One machine word per page; the same layout serves as list head. */
  datatype Node = Node(order: nat, region: nat, alloc: bool, hasNext: bool, avail: bool, next: nat)

  const ZERO_NODE := Node(0, 0, false, false, false, 0)

  /** The node array, addressed by page frame number. */
  datatype Mem = Mem(start: nat, nodes: seq<Node>) {
    predicate Has(p: nat) { start <= p < start + |nodes| }

    function At(p: nat): Node
      requires Has(p)
    {
      nodes[p - start]
    }

    function With(p: nat, n: Node): Mem
      requires Has(p)
    {
      Mem(start, nodes[p - start := n])
    }
  }

  /** The head word of a list, and the link a node carries when `s` follows it. */
  function HeadWord(s: seq<nat>): Node {
    if s == [] then ZERO_NODE else Node(0, 0, false, true, false, s[0])
  }

  function Relink(n: Node, link: Node): Node { n.(hasNext := link.hasNext, next := link.next) }

  function IndexOf(s: seq<nat>, x: nat): (i: nat)
    requires x in s
    ensures i < |s| && s[i] == x && x !in s[..i]
  {
    if s[0] == x then 0 else 1 + IndexOf(s[1..], x)
  }

  lemma DropKeeps(s: seq<nat>, i: nat, x: nat)
    requires i < |s| && x in s && x != s[i]
    ensures x in Removed(s, i) && forall y: nat :: y in Removed(s, i) ==> y in s
  {
    var j :| 0 <= j < |s| && s[j] == x;
    assert Removed(s, i)[if j < i then j else j - 1] == x;
  }

  /** A region: its nodes, list heads, the lists these spell out, its shape and page counter. */
  datatype View = View(mem: Mem, r: nat, buddies: seq<Node>, lists: seq<seq<nat>>, shape: Shape, avail: nat) {

    ghost predicate Fits(k: nat) { k < |buddies| && k < |lists| }

    ghost function Write(p: nat, n: Node): View
      requires mem.Has(p)
    {
      this.(mem := mem.With(p, n))
    }

    /** `pfn` goes to the front of list `k`. */
    ghost function Push(p: nat, k: nat): View
      requires Fits(k) && mem.Has(p)
    {
      this.(mem := mem.With(p, Relink(mem.At(p), buddies[k])),
            buddies := buddies[k := buddies[k].(hasNext := true, next := p)],
            lists := lists[k := [p] + lists[k]])
    }

    /** The first node leaves list `k`; its own link is left as it was. */
    ghost function Pop(k: nat): View
      requires Fits(k) && lists[k] != [] && mem.Has(buddies[k].next)
    {
      this.(buddies := buddies[k := Relink(buddies[k], mem.At(buddies[k].next))],
            lists := lists[k := lists[k][1..]])
    }

    ghost predicate CanSplit(k: nat) {
      && 0 < k && Fits(k) && lists[k] != []
      && mem.Has(buddies[k].next) && mem.Has(buddies[k].next + Pow(k - 1))
      && buddies[k].next in shape.order && shape.order[buddies[k].next] > 0
    }

    ghost predicate CanRemove(p: nat, k: nat) {
      Fits(k) && p in lists[k] && forall q: nat :: q in lists[k] ==> mem.Has(q)
    }

    /** `p` leaves list `k`: its predecessor, or the head word, takes over its link. */
    ghost function Remove(p: nat, k: nat): (v: View)
      requires CanRemove(p, k)
      ensures |v.buddies| == |buddies| && |v.lists| == |lists| && v.lists[k] == Removed(lists[k], IndexOf(lists[k], p))
      ensures v.mem.start == mem.start && |v.mem.nodes| == |mem.nodes| && v.shape == shape
    {
      var i := IndexOf(lists[k], p);
      var lists' := lists[k := Removed(lists[k], i)];
      if i == 0 then
        this.(mem := mem.With(p, Relink(mem.At(p), ZERO_NODE)),
              buddies := buddies[k := Relink(buddies[k], mem.At(p))], lists := lists')
      else
        var m1 := mem.With(lists[k][i - 1], Relink(mem.At(lists[k][i - 1]), mem.At(p)));
        this.(mem := m1.With(p, Relink(m1.At(p), ZERO_NODE)), lists := lists')
    }

    ghost predicate CanMerge(p: nat, q: nat, k: nat) {
      && Fits(k + 1) && p != q && p in lists[k] && q in lists[k]
      && (forall x: nat :: x in lists[k] ==> mem.Has(x))
      && (if p < q then p in shape.order else q in shape.order)
    }

    /** The free buddies `p` and `q` of order `k` become one block on the list above. */
    ghost function MergePair(p: nat, q: nat, k: nat): View
      requires CanMerge(p, q, k)
    {
      var h := if p < q then p else q;
      var n := Node(k + 1, r, false, false, true, 0);
      RemoveTwo(p, q, k).Write(p, n).Write(q, n).Push(h, k + 1).(shape := shape.Merge(h))
    }

    ghost function RemoveTwo(p: nat, q: nat, k: nat): (v: View)
      requires Fits(k) && p != q && p in lists[k] && q in lists[k]
      requires forall x: nat :: x in lists[k] ==> mem.Has(x)
      ensures |v.buddies| == |buddies| && |v.lists| == |lists|
      ensures v.mem.start == mem.start && |v.mem.nodes| == |mem.nodes| && v.shape == shape
    {
      var v1 := Remove(p, k);
      assert v1.CanRemove(q, k) by { DropKeeps(lists[k], IndexOf(lists[k], p), q); }
      v1.Remove(q, k)
    }

    /** The first block of order `k` is handed out. */
    ghost function TakeFirst(k: nat): View
      requires Fits(k) && lists[k] != [] && mem.Has(buddies[k].next) && avail >= Pow(k)
    {
      var h := buddies[k].next;
      Pop(k).Write(h, Relink(mem.At(h), ZERO_NODE).(alloc := true)).(shape := shape.Take(h), avail := avail - Pow(k))
    }

    /** A new free block of order `k` at the end of the region. */
    ghost function Append(k: nat): (v: View)
      requires Fits(k) && mem.Has(shape.hi)
      ensures v.mem == mem.With(shape.hi, Relink(Node(k, r, false, false, true, 0), buddies[k]))
    {
      var n := Node(k, r, false, false, true, 0);
      Write(shape.hi, n).Push(shape.hi, k).(shape := Extend(shape, k))
    }

    /** The block `h` of order `k` comes back. */
    ghost function GiveBack(h: nat, k: nat): View
      requires Fits(k) && mem.Has(h)
    {
      Write(h, mem.At(h).(alloc := false)).Push(h, k).(shape := shape.Give(h), avail := avail + Pow(k))
    }

    /** The first block of order `k` becomes two blocks on the list below. */
    ghost function SplitFirst(k: nat): View
      requires CanSplit(k)
    {
      var h, n := buddies[k].next, Node(k - 1, r, false, false, true, 0);
      var m := h + Pow(k - 1);
      Pop(k).Write(h, n).Write(m, n).Push(h, k - 1).Push(m, k - 1).(shape := shape.Split(h))
    }
  }

  ghost predicate Chain(m: Mem, s: seq<nat>, k: nat) {
    && (forall i :: 0 <= i < |s| ==> m.Has(s[i]) && m.At(s[i]).order == k)
    && (forall i :: 0 <= i < |s| ==> m.At(s[i]) == Relink(m.At(s[i]), HeadWord(s[i + 1..])))
    && (forall i, j :: 0 <= i < j < |s| ==> s[i] != s[j])
  }

  /** Each order has an acyclic list, and its head word is zero iff the list is empty. */
  ghost predicate ListsOk(m: Mem, buddies: seq<Node>, lists: seq<seq<nat>>) {
    && |buddies| == ORDER_COUNT && |lists| == ORDER_COUNT
    && (forall k :: 0 <= k < ORDER_COUNT ==> buddies[k] == HeadWord(lists[k]))
    && (forall k {:trigger Chain(m, lists[k], k)} :: 0 <= k < ORDER_COUNT ==> Chain(m, lists[k], k))
  }

  ghost predicate Unlisted(lists: seq<seq<nat>>, p: nat) {
    forall k :: 0 <= k < |lists| ==> p !in lists[k]
  }

  /** What a page's node says.  A page inside a block may keep stale metadata, but then it
      claims an order its own address cannot have. */
  ghost predicate NodeOk(n: Node, p: nat, r: nat, s: Shape) {
    if p in s.order
    then n.avail && n.region == r && n.order == s.order[p] && n.alloc == (p !in s.free)
    else !n.alloc && (n.avail ==> n.region == r && !Aligned(p, n.order))
  }

  ghost predicate MetaOk(m: Mem, r: nat, s: Shape) {
    && m.start <= s.lo && s.hi <= m.start + |m.nodes|
    && forall p: nat {:trigger NodeOk(m.At(p), p, r, s)} :: s.lo <= p < s.hi ==> NodeOk(m.At(p), p, r, s)
  }

  ghost predicate ListsMatch(lists: seq<seq<nat>>, s: Shape) {
    && |lists| == ORDER_COUNT
    && (forall p: nat, k :: 0 <= k < ORDER_COUNT ==> (p in lists[k] <==> p in s.free && p in s.order && s.order[p] == k))
  }

  ghost predicate Core(v: View) {
    && v.shape.Tiled()
    && ListsOk(v.mem, v.buddies, v.lists)
    && MetaOk(v.mem, v.r, v.shape)
    && ListsMatch(v.lists, v.shape)
    && v.avail == |v.shape.FreePages()|
  }

  // ---------------------------------------------------------------- lists

  lemma {:induction false} PushChain(m: Mem, s: seq<nat>, k: nat, p: nat)
    requires Chain(m, s, k) && p !in s && m.Has(p) && m.At(p).order == k
    ensures Chain(m.With(p, Relink(m.At(p), HeadWord(s))), [p] + s, k)
  {
    var m', s' := m.With(p, Relink(m.At(p), HeadWord(s))), [p] + s;
    forall i | 0 <= i < |s'|
      ensures m'.Has(s'[i]) && m'.At(s'[i]).order == k
      ensures m'.At(s'[i]) == Relink(m'.At(s'[i]), HeadWord(s'[i + 1..]))
    {
      if i == 0 {
        assert s'[1..] == s;
      } else {
        assert s'[i] == s[i - 1] && s'[i + 1..] == s[i..];
        assert s[i - 1] in s;
      }
    }
  }

  lemma FrameChain(m: Mem, m': Mem, s: seq<nat>, k: nat)
    requires Chain(m, s, k)
    requires forall p: nat :: p in s ==> m'.Has(p) && m'.At(p) == m.At(p)
    ensures Chain(m', s, k)
  {
    forall i | 0 <= i < |s| ensures m'.Has(s[i]) && m'.At(s[i]) == m.At(s[i]) { assert s[i] in s; }
  }

  lemma PopChain(m: Mem, s: seq<nat>, k: nat)
    requires Chain(m, s, k) && s != []
    ensures Chain(m, s[1..], k) && s[0] !in s[1..]
    ensures m.Has(s[0]) && Relink(ZERO_NODE, m.At(s[0])) == HeadWord(s[1..])
  {
    var t := s[1..];
    forall i | 0 <= i < |t| ensures m.Has(t[i]) && m.At(t[i]).order == k
                            ensures m.At(t[i]) == Relink(m.At(t[i]), HeadWord(t[i + 1..]))
    {
      assert t[i] == s[i + 1] && t[i + 1..] == s[i + 2..];
    }
  }

  /** Unlinking the node at position `i > 0`: its predecessor takes over its link. */
  lemma UnlinkChain(m: Mem, s: seq<nat>, k: nat, i: nat)
    requires Chain(m, s, k) && 0 < i < |s|
    ensures s[i] !in s[..i] + s[i + 1..]
    ensures m.Has(s[i]) && m.Has(s[i - 1])
    ensures Chain(m.With(s[i - 1], Relink(m.At(s[i - 1]), m.At(s[i]))), s[..i] + s[i + 1..], k)
  {
    var t := s[..i] + s[i + 1..];
    var m' := m.With(s[i - 1], Relink(m.At(s[i - 1]), m.At(s[i])));
    forall j | 0 <= j < |t| ensures m'.Has(t[j]) && m'.At(t[j]).order == k
                            ensures m'.At(t[j]) == Relink(m'.At(t[j]), HeadWord(t[j + 1..]))
    {
      if j < i - 1 {
        assert t[j] == s[j];
        assert s[j + 1..][0] == t[j + 1..][0];
      } else if j == i - 1 {
        assert t[j] == s[j] && t[j + 1..] == s[i + 1..];
      } else {
        assert t[j] == s[j + 1] && t[j + 1..] == s[j + 2..];
      }
    }
  }

  lemma FrameLists(m: Mem, m': Mem, buddies: seq<Node>, lists: seq<seq<nat>>)
    requires ListsOk(m, buddies, lists)
    requires forall p: nat :: m'.Has(p) <==> m.Has(p)
    requires forall p: nat :: m.Has(p) && !Unlisted(lists, p) ==> m'.At(p) == m.At(p)
    ensures ListsOk(m', buddies, lists)
  {
    forall k | 0 <= k < ORDER_COUNT ensures Chain(m', lists[k], k) {
      assert Chain(m, lists[k], k);
      forall p: nat | p in lists[k] ensures m'.Has(p) && m'.At(p) == m.At(p) { assert !Unlisted(lists, p); }
      FrameChain(m, m', lists[k], k);
    }
  }

  lemma PushLists(m: Mem, buddies: seq<Node>, lists: seq<seq<nat>>, k: nat, p: nat)
    requires ListsOk(m, buddies, lists) && k < ORDER_COUNT
    requires Unlisted(lists, p) && m.Has(p) && m.At(p).order == k
    ensures ListsOk(m.With(p, Relink(m.At(p), buddies[k])), buddies[k := buddies[k].(hasNext := true, next := p)],
                    lists[k := [p] + lists[k]])
  {
    var m' := m.With(p, Relink(m.At(p), buddies[k]));
    var lists' := lists[k := [p] + lists[k]];
    forall j | 0 <= j < ORDER_COUNT ensures Chain(m', lists'[j], j) {
      assert Chain(m, lists[j], j);
      if j == k {
        PushChain(m, lists[k], k, p);
      } else {
        FrameChain(m, m', lists[j], j);
      }
    }
  }

  lemma PopLists(m: Mem, buddies: seq<Node>, lists: seq<seq<nat>>, k: nat)
    requires ListsOk(m, buddies, lists) && k < ORDER_COUNT && lists[k] != []
    ensures m.Has(lists[k][0])
    ensures ListsOk(m, buddies[k := Relink(buddies[k], m.At(lists[k][0]))], lists[k := lists[k][1..]])
    ensures Unlisted(lists[k := lists[k][1..]], lists[k][0])
  {
    assert Chain(m, lists[k], k);
    PopChain(m, lists[k], k);
    var p, lists' := lists[k][0], lists[k := lists[k][1..]];
    forall j | 0 <= j < ORDER_COUNT ensures p !in lists'[j] {
      if j != k { NotInOtherList(m, lists[k], k, 0, lists[j], j); }
    }
  }

  lemma NotInOtherList(m: Mem, s: seq<nat>, k: nat, i: nat, t: seq<nat>, j: nat)
    requires Chain(m, s, k) && Chain(m, t, j) && j != k && i < |s|
    ensures s[i] !in t
  {
  }

  lemma RemoveLists(m: Mem, m': Mem, buddies: seq<Node>, lists: seq<seq<nat>>, k: nat, i: nat)
    requires ListsOk(m, buddies, lists) && k < ORDER_COUNT && 0 < i < |lists[k]|
    requires m.Has(lists[k][i]) && m.Has(lists[k][i - 1])
    requires m' == m.With(lists[k][i - 1], Relink(m.At(lists[k][i - 1]), m.At(lists[k][i])))
    ensures ListsOk(m', buddies, lists[k := Removed(lists[k], i)])
  {
    var s, lists' := lists[k], lists[k := Removed(lists[k], i)];
    assert Chain(m, s, k);
    assert HeadWord(s) == HeadWord(Removed(s, i));
    forall j | 0 <= j < ORDER_COUNT ensures Chain(m', lists'[j], j) {
      if j == k {
        UnlinkChain(m, s, k, i);
      } else {
        OtherChain(m, m', s, k, i - 1, lists[j], j);
      }
    }
  }

  lemma OtherChain(m: Mem, m': Mem, s: seq<nat>, k: nat, i: nat, t: seq<nat>, j: nat)
    requires Chain(m, s, k) && Chain(m, t, j) && j != k && i < |s|
    requires m'.start == m.start && |m'.nodes| == |m.nodes|
    requires forall p: nat :: m.Has(p) && p != s[i] ==> m'.At(p) == m.At(p)
    ensures Chain(m', t, j)
  {
    NotInOtherList(m, s, k, i, t, j);
    forall p: nat | p in t ensures m'.Has(p) && m'.At(p) == m.At(p) { assert m.Has(p); }
    FrameChain(m, m', t, j);
  }

  lemma RemovedIsUnlisted(m: Mem, buddies: seq<Node>, lists: seq<seq<nat>>, k: nat, i: nat)
    requires ListsOk(m, buddies, lists) && k < ORDER_COUNT && i < |lists[k]|
    ensures Unlisted(lists[k := Removed(lists[k], i)], lists[k][i])
    ensures forall p: nat :: p in Removed(lists[k], i) <==> p in lists[k] && p != lists[k][i]
  {
    assert Chain(m, lists[k], k);
    forall j | 0 <= j < ORDER_COUNT && j != k ensures lists[k][i] !in lists[j] {
      assert Chain(m, lists[j], j);
      NotInOtherList(m, lists[k], k, i, lists[j], j);
    }
  }

  /** Two node arrays that agree except for the links. */
  ghost predicate SameMeta(m: Mem, m': Mem) {
    && m'.start == m.start && |m'.nodes| == |m.nodes|
    && forall p: nat :: m.Has(p) ==> Relink(m'.At(p), ZERO_NODE) == Relink(m.At(p), ZERO_NODE)
  }

  /** `p` has left list `k`, and nothing but links has changed. */
  ghost predicate Unlinked(m: Mem, lists: seq<seq<nat>>, m': Mem, buddies': seq<Node>, lists': seq<seq<nat>>, p: nat, k: nat) {
    && k < |lists| == |lists'|
    && ListsOk(m', buddies', lists') && Unlisted(lists', p)
    && lists' == lists[k := lists'[k]]
    && (forall q: nat :: q in lists'[k] <==> q in lists[k] && q != p)
    && SameMeta(m, m')
    && (forall q: nat :: m.Has(q) && q !in lists[k] ==> m'.At(q) == m.At(q))
    && m.Has(p) && m'.At(p) == Relink(m.At(p), ZERO_NODE)
  }

  lemma RemoveFirst(m: Mem, buddies: seq<Node>, lists: seq<seq<nat>>, k: nat, p: nat)
    requires ListsOk(m, buddies, lists) && k < ORDER_COUNT && lists[k] != [] && lists[k][0] == p
    ensures m.Has(p) && buddies[k].next == p
    ensures Unlinked(m, lists, m.With(p, Relink(m.At(p), ZERO_NODE)),
                    buddies[k := Relink(buddies[k], m.At(p))], lists[k := Removed(lists[k], 0)], p, k)
  {
    PopLists(m, buddies, lists, k);
    RemovedIsUnlisted(m, buddies, lists, k, 0);
    assert Removed(lists[k], 0) == lists[k][1..];
    ClearNode(m, m, buddies[k := Relink(buddies[k], m.At(p))], lists, lists[k := Removed(lists[k], 0)], p, k);
  }

  /** Clearing the link of a node that is on no list any more completes its removal. */
  lemma ClearNode(m: Mem, m1: Mem, buddies': seq<Node>, lists: seq<seq<nat>>, lists': seq<seq<nat>>, p: nat, k: nat)
    requires k < |lists| == |lists'|
    requires ListsOk(m1, buddies', lists') && Unlisted(lists', p)
    requires lists' == lists[k := lists'[k]]
    requires forall q: nat :: q in lists'[k] <==> q in lists[k] && q != p
    requires SameMeta(m, m1)
    requires forall q: nat :: m.Has(q) && q !in lists[k] ==> m1.At(q) == m.At(q)
    requires m.Has(p) && p in lists[k]
    ensures Unlinked(m, lists, m1.With(p, Relink(m1.At(p), ZERO_NODE)), buddies', lists', p, k)
  {
    var m' := m1.With(p, Relink(m1.At(p), ZERO_NODE));
    FrameLists(m1, m', buddies', lists');
    forall q: nat | m.Has(q) ensures Relink(m'.At(q), ZERO_NODE) == Relink(m.At(q), ZERO_NODE) {
      assert Relink(m1.At(q), ZERO_NODE) == Relink(m.At(q), ZERO_NODE);
    }
  }

  lemma RemoveLater(m: Mem, buddies: seq<Node>, lists: seq<seq<nat>>, k: nat, i: nat, p: nat, prev: nat)
    requires ListsOk(m, buddies, lists) && k < ORDER_COUNT && 0 < i < |lists[k]|
    requires lists[k][i - 1] == prev && lists[k][i] == p && m.Has(p) && m.Has(prev)
    ensures var m1 := m.With(prev, Relink(m.At(prev), m.At(p)));
      Unlinked(m, lists, m1.With(p, Relink(m1.At(p), ZERO_NODE)), buddies, lists[k := Removed(lists[k], i)], p, k)
  {
    var m1 := m.With(prev, Relink(m.At(prev), m.At(p)));
    RemoveLists(m, m1, buddies, lists, k, i);
    RemovedIsUnlisted(m, buddies, lists, k, i);
    ClearNode(m, m1, buddies, lists, lists[k := Removed(lists[k], i)], p, k);
  }

  // ---------------------------------------------------------------- metadata

  /** Two node arrays that agree outside `lo .. hi`. */
  ghost predicate SameOutside(m: Mem, m': Mem, lo: nat, hi: nat) {
    && m'.start == m.start && |m'.nodes| == |m.nodes|
    && forall p: nat :: m.Has(p) && !(lo <= p < hi) ==> m'.At(p) == m.At(p)
  }

  lemma RelinkMeta(m: Mem, m': Mem, r: nat, s: Shape)
    requires MetaOk(m, r, s) && SameMeta(m, m')
    ensures MetaOk(m', r, s)
  {
    forall p: nat | s.lo <= p < s.hi ensures NodeOk(m'.At(p), p, r, s) {
      assert NodeOk(m.At(p), p, r, s) && m.Has(p);
    }
  }

  lemma SplitMeta(m: Mem, r: nat, s: Shape, h: nat)
    requires s.Tiled() && MetaOk(m, r, s) && h in s.free && s.order[h] > 0
    ensures var k := s.order[h] - 1; var n := Node(k, r, false, false, true, 0);
      && m.Has(h) && m.Has(h + Pow(k))
      && MetaOk(m.With(h, n).With(h + Pow(k), n), r, s.Split(h))
  {
    var k := s.order[h] - 1;
    var n := Node(k, r, false, false, true, 0);
    SplitTiles(s, h);
    assert s.BlockOk(h);
    var m' := m.With(h, n).With(h + Pow(k), n);
    var t := s.Split(h);
    forall p: nat | t.lo <= p < t.hi ensures NodeOk(m'.At(p), p, r, t) {
      assert NodeOk(m.At(p), p, r, s);
    }
  }

  lemma MergeMeta(m: Mem, r: nat, s: Shape, p: nat)
    requires s.Tiled() && MetaOk(m, r, s) && s.FreePair(p)
    ensures var k := s.order[p]; var n := Node(k + 1, r, false, false, true, 0);
      && m.Has(p) && m.Has(p + Pow(k))
      && MetaOk(m.With(p, n).With(p + Pow(k), n), r, s.Merge(p))
  {
    var k := s.order[p];
    var n := Node(k + 1, r, false, false, true, 0);
    var q := p + Pow(k);
    assert s.BlockOk(p) && s.BlockOk(q);
    UpperHalf(p, k);
    var m' := m.With(p, n).With(q, n);
    var t := s.Merge(p);
    forall x: nat | t.lo <= x < t.hi ensures NodeOk(m'.At(x), x, r, t) {
      assert NodeOk(m.At(x), x, r, s);
    }
  }

  lemma TagMeta(m: Mem, r: nat, s: Shape, t: Shape, h: nat, alloc: bool)
    requires s.Tiled() && MetaOk(m, r, s) && h in s.order
    requires t == if alloc then s.Take(h) else s.Give(h)
    ensures m.Has(h)
    ensures MetaOk(m.With(h, Relink(m.At(h), ZERO_NODE).(alloc := alloc)), r, t)
  {
    assert s.BlockOk(h);
    assert NodeOk(m.At(h), h, r, s);
    var m' := m.With(h, Relink(m.At(h), ZERO_NODE).(alloc := alloc));
    forall p: nat | t.lo <= p < t.hi ensures NodeOk(m'.At(p), p, r, t) {
      assert NodeOk(m.At(p), p, r, s);
    }
  }

  /** The test `buddy_combine` makes on a node's metadata finds genuine free buddies only,
      however stale the metadata of pages inside blocks may be. */
  lemma MetadataTestIsGenuine(m: Mem, r: nat, s: Shape, q: nat, k: nat)
    requires s.Tiled() && MetaOk(m, r, s) && m.Has(q)
    requires forall p: nat :: m.Has(p) && !(s.lo <= p < s.hi) ==> !(m.At(p).avail && m.At(p).region == r)
    requires Aligned(q, k)
    ensures (m.At(q).avail && m.At(q).region == r && !m.At(q).alloc && m.At(q).order == k)
            <==> (q in s.free && s.order[q] == k)
  {
    if s.lo <= q < s.hi {
      assert NodeOk(m.At(q), q, r, s);
    } else if q in s.order {
      assert s.BlockOk(q);
    }
  }

  lemma FrameCore(v: View, m': Mem)
    requires Core(v) && m'.start == v.mem.start && |m'.nodes| == |v.mem.nodes|
    requires forall p: nat :: v.shape.lo <= p < v.shape.hi && v.mem.Has(p) ==> m'.At(p) == v.mem.At(p)
    ensures Core(v.(mem := m'))
  {
    var s := v.shape;
    forall p: nat | s.lo <= p < s.hi ensures NodeOk(m'.At(p), p, v.r, s) {
      assert NodeOk(v.mem.At(p), p, v.r, s);
    }
    forall p: nat | v.mem.Has(p) && !Unlisted(v.lists, p) ensures m'.At(p) == v.mem.At(p) {
      ListedInRegion(v, p);
    }
    FrameLists(v.mem, m', v.buddies, v.lists);
  }

  lemma ListedInRegion(v: View, p: nat)
    requires Core(v) && !Unlisted(v.lists, p)
    ensures p in v.shape.free && v.shape.lo <= p < v.shape.hi
  {
    assert p in v.shape.order;
    assert v.shape.BlockOk(p);
  }

  // ---------------------------------------------------------------- whole steps

  ghost predicate SameLists(lists: seq<seq<nat>>, lists': seq<seq<nat>>, j: nat, k: nat) {
    && |lists| == |lists'| == ORDER_COUNT
    && forall i :: 0 <= i < ORDER_COUNT && i != j && i != k ==> lists'[i] == lists[i]
  }

  lemma SplitMatch(lists: seq<seq<nat>>, lists': seq<seq<nat>>, s: Shape, j: nat, k: nat, h: nat)
    requires s.Tiled() && ListsMatch(lists, s) && k == j + 1 < ORDER_COUNT && SameLists(lists, lists', j, k)
    requires h in s.free && s.order[h] == k
    requires forall p: nat :: p in lists'[k] <==> p in lists[k] && p != h
    requires forall p: nat :: p in lists'[j] <==> p in lists[j] || p == h || p == h + Pow(j)
    ensures ListsMatch(lists', s.Split(h))
  {
    SplitTiles(s, h);
    var t := s.Split(h);
    forall p: nat, i | 0 <= i < ORDER_COUNT
      ensures p in lists'[i] <==> p in t.free && p in t.order && t.order[p] == i
    {
      assert p in lists[i] <==> p in s.free && p in s.order && s.order[p] == i;
    }
  }

  lemma MergeMatch(lists: seq<seq<nat>>, lists': seq<seq<nat>>, s: Shape, k: nat, j: nat, p: nat)
    requires ListsMatch(lists, s) && j == k + 1 < ORDER_COUNT && SameLists(lists, lists', j, k)
    requires s.FreePair(p) && s.order[p] == k
    requires forall q: nat :: q in lists'[k] <==> q in lists[k] && q != p && q != p + Pow(k)
    requires forall q: nat :: q in lists'[j] <==> q in lists[j] || q == p
    ensures ListsMatch(lists', s.Merge(p))
  {
    var t := s.Merge(p);
    forall q: nat, i | 0 <= i < ORDER_COUNT
      ensures q in lists'[i] <==> q in t.free && q in t.order && t.order[q] == i
    {
      assert q in lists[i] <==> q in s.free && q in s.order && s.order[q] == i;
    }
  }

  /** After the pop, neither half is on a list, and their nodes may be rewritten. */
  lemma SplitLists(v: View, k: nat, h: nat, m: nat, n: Node)
    requires Core(v) && 0 < k < ORDER_COUNT && v.lists[k] != []
    requires h == v.lists[k][0] && m !in v.shape.order && v.mem.Has(h) && v.mem.Has(m)
    ensures ListsOk(v.mem.With(h, n).With(m, n),
                    v.buddies[k := Relink(v.buddies[k], v.mem.At(h))], v.lists[k := v.lists[k][1..]])
    ensures Unlisted(v.lists[k := v.lists[k][1..]], h) && Unlisted(v.lists[k := v.lists[k][1..]], m)
  {
    PopLists(v.mem, v.buddies, v.lists, k);
    assert Unlisted(v.lists, m);
    FrameLists(v.mem, v.mem.With(h, n).With(m, n),
               v.buddies[k := Relink(v.buddies[k], v.mem.At(h))], v.lists[k := v.lists[k][1..]]);
  }

  lemma TwoWrites(m: Mem, h: nat, p: nat, n: Node, a: Node, b: Node, m': Mem)
    requires m.Has(h) && m.Has(p) && h != p
    requires m' == m.With(h, n).With(p, n).With(h, Relink(n, a)).With(p, Relink(n, b))
    ensures SameMeta(m.With(h, n).With(p, n), m')
    ensures forall q: nat :: m.Has(q) && q != h && q != p ==> m'.At(q) == m.At(q)
  {
  }

  lemma SplitFirstLists(v: View, k: nat)
    requires Core(v) && 0 < k < ORDER_COUNT && v.lists[k] != []
    ensures v.CanSplit(k)
    ensures var v' := v.SplitFirst(k); ListsOk(v'.mem, v'.buddies, v'.lists)
  {
    HeadOfList(v, k);
    var h := v.buddies[k].next;
    SplitTiles(v.shape, h);
    SplitLists(v, k, h, h + Pow(k - 1), Node(k - 1, v.r, false, false, true, 0));
    PushHalves(v, k);
  }

  lemma PushHalves(v: View, k: nat)
    requires v.CanSplit(k) && k < ORDER_COUNT
    requires var h, n := v.buddies[k].next, Node(k - 1, v.r, false, false, true, 0);
      var m := h + Pow(k - 1);
      && ListsOk(v.mem.With(h, n).With(m, n), v.Pop(k).buddies, v.Pop(k).lists)
      && Unlisted(v.Pop(k).lists, h) && Unlisted(v.Pop(k).lists, m)
    ensures var v' := v.SplitFirst(k); ListsOk(v'.mem, v'.buddies, v'.lists)
  {
    var h, n := v.buddies[k].next, Node(k - 1, v.r, false, false, true, 0);
    var m := h + Pow(k - 1);
    PushTwice(v.Pop(k).Write(h, n).Write(m, n), h, m, k - 1);
  }

  lemma PushTwice(v: View, h: nat, m: nat, j: nat)
    requires ListsOk(v.mem, v.buddies, v.lists) && j < ORDER_COUNT && h != m
    requires Unlisted(v.lists, h) && v.mem.Has(h) && v.mem.At(h).order == j
    requires Unlisted(v.lists, m) && v.mem.Has(m) && v.mem.At(m).order == j
    ensures var v' := v.Push(h, j).Push(m, j); ListsOk(v'.mem, v'.buddies, v'.lists)
  {
    PushLists(v.mem, v.buddies, v.lists, j, h);
    var v2 := v.Push(h, j);
    assert Unlisted(v2.lists, m);
    PushLists(v2.mem, v2.buddies, v2.lists, j, m);
  }

  lemma SplitFirstShape(v: View, k: nat)
    requires v.CanSplit(k) && |v.lists| == ORDER_COUNT
    requires v.lists[k][0] == v.buddies[k].next && v.lists[k][0] !in v.lists[k][1..]
    ensures var h, lists', j := v.lists[k][0], v.SplitFirst(k).lists, k - 1;
      && SameLists(v.lists, lists', j, k)
      && (forall p: nat :: p in lists'[k] <==> p in v.lists[k] && p != h)
      && (forall p: nat :: p in lists'[j] <==> p in v.lists[j] || p == h || p == h + Pow(j))
  {
    var h, j := v.lists[k][0], k - 1;
    var m := h + Pow(j);
    assert v.SplitFirst(k).lists == v.lists[k := v.lists[k][1..]][j := [h] + v.lists[j]][j := [m] + ([h] + v.lists[j])];
    SplitMembers(v.lists, v.SplitFirst(k).lists, j, k, h, m);
  }

  lemma SplitFirstCore(v: View, k: nat)
    requires Core(v) && 0 < k < ORDER_COUNT && v.lists[k] != []
    ensures v.CanSplit(k) && Core(v.SplitFirst(k))
    ensures SameOutside(v.mem, v.SplitFirst(k).mem, v.shape.lo, v.shape.hi)
  {
    SplitFirstLists(v, k);
    HeadOfList(v, k);
    var h := v.buddies[k].next;
    SplitTiles(v.shape, h);
    SplitKeepsPages(v.shape, h);
    SplitFirstMeta(v, k);
    assert Chain(v.mem, v.lists[k], k);
    SplitFirstShape(v, k);
    SplitMatch(v.lists, v.SplitFirst(k).lists, v.shape, k - 1, k, h);
  }

  lemma SplitFirstMeta(v: View, k: nat)
    requires v.shape.Tiled() && MetaOk(v.mem, v.r, v.shape) && v.CanSplit(k)
    requires v.buddies[k].next in v.shape.free && v.shape.order[v.buddies[k].next] == k
    ensures MetaOk(v.SplitFirst(k).mem, v.r, v.SplitFirst(k).shape)
    ensures SameOutside(v.mem, v.SplitFirst(k).mem, v.shape.lo, v.shape.hi)
  {
    var h, n := v.buddies[k].next, Node(k - 1, v.r, false, false, true, 0);
    var m := h + Pow(k - 1);
    assert v.shape.BlockOk(h);
    SplitMeta(v.mem, v.r, v.shape, h);
    var w := v.Pop(k).buddies[k - 1];
    TwoWrites(v.mem, h, m, n, w, w.(hasNext := true, next := h), v.SplitFirst(k).mem);
    RelinkMeta(v.mem.With(h, n).With(m, n), v.SplitFirst(k).mem, v.r, v.SplitFirst(k).shape);
  }

  lemma SplitMembers(lists: seq<seq<nat>>, lists': seq<seq<nat>>, j: nat, k: nat, h: nat, m: nat)
    requires SameLists(lists, lists', j, k) && k == j + 1 < ORDER_COUNT
    requires lists[k] != [] && h == lists[k][0] && h !in lists[k][1..]
    requires lists'[k] == lists[k][1..] && lists'[j] == [m] + ([h] + lists[j])
    ensures forall p: nat :: p in lists'[k] <==> p in lists[k] && p != h
    ensures forall p: nat :: p in lists'[j] <==> p in lists[j] || p == h || p == m
  {
    assert lists[k] == [h] + lists[k][1..];
  }

  lemma HeadOfList(v: View, k: nat)
    requires Core(v) && k < ORDER_COUNT && v.lists[k] != []
    ensures var h := v.lists[k][0];
      && v.buddies[k].next == h && h in v.shape.free && v.shape.order[h] == k
      && v.shape.lo <= h && h + Pow(k) <= v.shape.hi && v.mem.Has(h)
  {
    assert v.lists[k][0] in v.lists[k];
    assert v.shape.BlockOk(v.lists[k][0]);
  }

  // ---------------------------------------------------------------- merge, take and give

  lemma RemoveOk(v: View, p: nat, k: nat)
    requires ListsOk(v.mem, v.buddies, v.lists) && k < ORDER_COUNT && p in v.lists[k]
    ensures v.CanRemove(p, k)
    ensures var v' := v.Remove(p, k); Unlinked(v.mem, v.lists, v'.mem, v'.buddies, v'.lists, p, k)
  {
    assert Chain(v.mem, v.lists[k], k);
    var i := IndexOf(v.lists[k], p);
    if i == 0 {
      RemoveFirst(v.mem, v.buddies, v.lists, k, p);
    } else {
      RemoveLater(v.mem, v.buddies, v.lists, k, i, p, v.lists[k][i - 1]);
    }
  }

  lemma RemoveTwoOk(v: View, p: nat, q: nat, k: nat)
    requires ListsOk(v.mem, v.buddies, v.lists) && k < ORDER_COUNT && p in v.lists[k] && q in v.lists[k] && p != q
    ensures forall x: nat :: x in v.lists[k] ==> v.mem.Has(x)
    ensures var v' := v.RemoveTwo(p, q, k);
      && ListsOk(v'.mem, v'.buddies, v'.lists) && Unlisted(v'.lists, p) && Unlisted(v'.lists, q)
      && v'.lists == v.lists[k := v'.lists[k]]
      && (forall x: nat :: x in v'.lists[k] <==> x in v.lists[k] && x != p && x != q)
      && SameMeta(v.mem, v'.mem)
      && (forall x: nat :: v.mem.Has(x) && x !in v.lists[k] ==> v'.mem.At(x) == v.mem.At(x))
      && v' == v.(mem := v'.mem, buddies := v'.buddies, lists := v'.lists)
  {
    RemoveOk(v, p, k);
    var v1 := v.Remove(p, k);
    RemoveOk(v1, q, k);
    var v2 := v1.Remove(q, k);
    forall x: nat | v.mem.Has(x) ensures Relink(v2.mem.At(x), ZERO_NODE) == Relink(v.mem.At(x), ZERO_NODE) {
      assert Relink(v1.mem.At(x), ZERO_NODE) == Relink(v.mem.At(x), ZERO_NODE);
    }
  }

  lemma WriteUnlisted(m: Mem, buddies: seq<Node>, lists: seq<seq<nat>>, p: nat, n: Node)
    requires ListsOk(m, buddies, lists) && Unlisted(lists, p) && m.Has(p)
    ensures ListsOk(m.With(p, n), buddies, lists)
  {
    FrameLists(m, m.With(p, n), buddies, lists);
  }

  lemma RelinkOne(m: Mem, p: nat, w: Node)
    requires m.Has(p)
    ensures SameMeta(m, m.With(p, Relink(m.At(p), w)))
  {
  }

  lemma RelinkOneMeta(m: Mem, p: nat, w: Node, r: nat, s: Shape)
    requires m.Has(p) && MetaOk(m, r, s)
    ensures MetaOk(m.With(p, Relink(m.At(p), w)), r, s)
  {
    RelinkOne(m, p, w);
    RelinkMeta(m, m.With(p, Relink(m.At(p), w)), r, s);
  }

  lemma WriteInside(m: Mem, m': Mem, p: nat, n: Node, lo: nat, hi: nat)
    requires SameOutside(m, m', lo, hi) && m.Has(p) && lo <= p < hi
    ensures SameOutside(m, m'.With(p, n), lo, hi)
  {
  }

  lemma WritesCommute(m: Mem, p: nat, q: nat, n: Node)
    requires m.Has(p) && m.Has(q)
    ensures m.With(p, n).With(q, n) == m.With(q, n).With(p, n)
  {
  }

  lemma FreePairListed(v: View, h: nat, k: nat)
    requires Core(v) && v.shape.FreePair(h) && v.shape.order[h] == k
    ensures k < MAX_ORDER && h in v.lists[k] && h + Pow(k) in v.lists[k]
    ensures v.shape.lo <= h && h + 2 * Pow(k) <= v.shape.hi && v.mem.Has(h) && v.mem.Has(h + Pow(k))
  {
    assert v.shape.BlockOk(h) && v.shape.BlockOk(h + Pow(k));
  }

  lemma MergePairLists(v: View, p: nat, q: nat, k: nat, h: nat)
    requires ListsOk(v.mem, v.buddies, v.lists) && k < MAX_ORDER && v.CanMerge(p, q, k)
    requires h == if p < q then p else q
    ensures var v' := v.MergePair(p, q, k); ListsOk(v'.mem, v'.buddies, v'.lists)
    ensures var v', j := v.MergePair(p, q, k), k + 1;
      && SameLists(v.lists, v'.lists, j, k)
      && (forall x: nat :: x in v'.lists[k] <==> x in v.lists[k] && x != p && x != q)
      && (forall x: nat :: x in v'.lists[j] <==> x in v.lists[j] || x == h)
  {
    RemoveTwoOk(v, p, q, k);
    var v2, n := v.RemoveTwo(p, q, k), Node(k + 1, v.r, false, false, true, 0);
    var v3 := v2.Write(p, n).Write(q, n);
    WriteUnlisted(v2.mem, v2.buddies, v2.lists, p, n);
    WriteUnlisted(v2.mem.With(p, n), v2.buddies, v2.lists, q, n);
    PushLists(v3.mem, v3.buddies, v3.lists, k + 1, h);
  }

  lemma MergePairMeta(v: View, p: nat, q: nat, k: nat, h: nat)
    requires ListsOk(v.mem, v.buddies, v.lists) && k < MAX_ORDER && v.CanMerge(p, q, k)
    requires h == if p < q then p else q
    requires v.shape.Tiled() && MetaOk(v.mem, v.r, v.shape) && v.shape.FreePair(h) && v.shape.order[h] == k
    requires p == h + Pow(k) || q == h + Pow(k)
    ensures MetaOk(v.MergePair(p, q, k).mem, v.r, v.shape.Merge(h))
  {
    RemoveTwoOk(v, p, q, k);
    var v2, n := v.RemoveTwo(p, q, k), Node(k + 1, v.r, false, false, true, 0);
    RelinkMeta(v.mem, v2.mem, v.r, v.shape);
    MergeWrites(v2, p, q, k, h, n);
  }

  lemma MergeWrites(v: View, p: nat, q: nat, k: nat, h: nat, n: Node)
    requires v.shape.Tiled() && MetaOk(v.mem, v.r, v.shape) && v.shape.FreePair(h) && v.shape.order[h] == k
    requires (p == h && q == h + Pow(k)) || (q == h && p == h + Pow(k))
    requires v.mem.Has(p) && v.mem.Has(q) && v.Fits(k + 1) && n == Node(k + 1, v.r, false, false, true, 0)
    ensures MetaOk(v.Write(p, n).Write(q, n).Push(h, k + 1).mem, v.r, v.shape.Merge(h))
  {
    MergeMeta(v.mem, v.r, v.shape, h);
    WritesCommute(v.mem, p, q, n);
    RelinkOneMeta(v.Write(p, n).Write(q, n).mem, h, v.buddies[k + 1], v.r, v.shape.Merge(h));
  }

  lemma MergePairOutside(v: View, p: nat, q: nat, k: nat, h: nat)
    requires Core(v) && k < MAX_ORDER && v.CanMerge(p, q, k)
    requires h == if p < q then p else q
    ensures SameOutside(v.mem, v.MergePair(p, q, k).mem, v.shape.lo, v.shape.hi)
  {
    var lo, hi := v.shape.lo, v.shape.hi;
    RemoveTwoOk(v, p, q, k);
    var v2, n := v.RemoveTwo(p, q, k), Node(k + 1, v.r, false, false, true, 0);
    forall x: nat | v.mem.Has(x) && x in v.lists[k] ensures lo <= x < hi { ListedInRegion(v, x); }
    assert SameOutside(v.mem, v2.mem, lo, hi);
    WriteInside(v.mem, v2.mem, p, n, lo, hi);
    WriteInside(v.mem, v2.mem.With(p, n), q, n, lo, hi);
    var v3 := v2.Write(p, n).Write(q, n);
    WriteInside(v.mem, v3.mem, h, Relink(v3.mem.At(h), v3.buddies[k + 1]), lo, hi);
  }

  lemma MergePairCore(v: View, p: nat, q: nat, k: nat, h: nat)
    requires Core(v) && v.shape.FreePair(h) && v.shape.order[h] == k
    requires (p == h && q == h + Pow(k)) || (q == h && p == h + Pow(k))
    ensures v.CanMerge(p, q, k) && Core(v.MergePair(p, q, k))
    ensures SameOutside(v.mem, v.MergePair(p, q, k).mem, v.shape.lo, v.shape.hi)
  {
    FreePairListed(v, h, k);
    RemoveTwoOk(v, p, q, k);
    MergePairLists(v, p, q, k, h);
    MergePairMeta(v, p, q, k, h);
    MergePairOutside(v, p, q, k, h);
    MergeTiles(v.shape, h);
    MergeKeepsPages(v.shape, h);
    MergeMatch(v.lists, v.MergePair(p, q, k).lists, v.shape, k, k + 1, h);
  }

  lemma {:induction false} BlockPagesCard(h: nat, k: nat)
    ensures |BlockPages(h, k)| == Pow(k)
  {
    RangeCard(h, Pow(k), BlockPages(h, k));
  }

  lemma {:induction false} RangeCard(h: nat, n: nat, s: set<nat>)
    requires forall p: nat :: p in s <==> h <= p < h + n
    ensures |s| == n
    decreases n
  {
    if n == 0 {
      assert s == {};
    } else {
      RangeCard(h, n - 1, s - {h + n - 1});
    }
  }

  lemma {:induction false} SubsetCard(a: set<nat>, b: set<nat>)
    requires a <= b
    ensures |a| <= |b| && |b - a| == |b| - |a|
  {
    assert b == a + (b - a);
  }

  lemma TakeFirstCore(v: View, k: nat)
    requires Core(v) && k < ORDER_COUNT && v.lists[k] != []
    ensures v.mem.Has(v.buddies[k].next) && v.avail >= Pow(k)
    ensures Core(v.TakeFirst(k))
    ensures SameOutside(v.mem, v.TakeFirst(k).mem, v.shape.lo, v.shape.hi)
  {
    HeadOfList(v, k);
    var h := v.buddies[k].next;
    TakeTiles(v.shape, h);
    BlockIsRun(v.shape, h);
    BlockPagesCard(h, k);
    SubsetCard(BlockPages(h, k), v.shape.FreePages());
    TagMeta(v.mem, v.r, v.shape, v.shape.Take(h), h, true);
    WriteInside(v.mem, v.mem, h, Relink(v.mem.At(h), ZERO_NODE).(alloc := true), v.shape.lo, v.shape.hi);
    TakeFirstLists(v, k);
  }

  lemma TakeFirstLists(v: View, k: nat)
    requires Core(v) && k < ORDER_COUNT && v.lists[k] != [] && v.mem.Has(v.buddies[k].next) && v.avail >= Pow(k)
    ensures var v' := v.TakeFirst(k); ListsOk(v'.mem, v'.buddies, v'.lists) && ListsMatch(v'.lists, v'.shape)
  {
    HeadOfList(v, k);
    PopLists(v.mem, v.buddies, v.lists, k);
    var v1 := v.Pop(k);
    var h := v.buddies[k].next;
    WriteUnlisted(v1.mem, v1.buddies, v1.lists, h, Relink(v.mem.At(h), ZERO_NODE).(alloc := true));
    assert v.lists[k] == [v.lists[k][0]] + v.lists[k][1..];
  }

  lemma GiveBackCore(v: View, h: nat, k: nat)
    requires Core(v) && h in v.shape.order && h !in v.shape.free && v.shape.order[h] == k
    ensures k < ORDER_COUNT && v.mem.Has(h)
    ensures Core(v.GiveBack(h, k))
    ensures SameOutside(v.mem, v.GiveBack(h, k).mem, v.shape.lo, v.shape.hi)
  {
    assert v.shape.BlockOk(h);
    assert NodeOk(v.mem.At(h), h, v.r, v.shape);
    GiveTiles(v.shape, h);
    BlockPagesCard(h, k);
    UsedPagesAreNotFree(v.shape, h);
    TagMeta(v.mem, v.r, v.shape, v.shape.Give(h), h, false);
    GiveBackLists(v, h, k);
    GiveBackMeta(v, h, k);
  }

  lemma GiveBackMeta(v: View, h: nat, k: nat)
    requires v.shape.lo <= h < v.shape.hi && v.Fits(k) && v.mem.Has(h)
    requires MetaOk(v.mem.With(h, Relink(v.mem.At(h), ZERO_NODE).(alloc := false)), v.r, v.shape.Give(h))
    ensures MetaOk(v.GiveBack(h, k).mem, v.r, v.shape.Give(h))
    ensures SameOutside(v.mem, v.GiveBack(h, k).mem, v.shape.lo, v.shape.hi)
  {
    var m1 := v.mem.With(h, Relink(v.mem.At(h), ZERO_NODE).(alloc := false));
    RelinkOne(m1, h, v.buddies[k]);
    assert v.GiveBack(h, k).mem == m1.With(h, Relink(m1.At(h), v.buddies[k]));
    RelinkMeta(m1, v.GiveBack(h, k).mem, v.r, v.shape.Give(h));
    WriteInside(v.mem, v.mem, h, v.GiveBack(h, k).mem.At(h), v.shape.lo, v.shape.hi);
    assert v.GiveBack(h, k).mem == v.mem.With(h, v.GiveBack(h, k).mem.At(h));
  }

  lemma UsedPagesAreNotFree(s: Shape, h: nat)
    requires s.Tiled() && h in s.order && h !in s.free
    ensures s.FreePages() !! BlockPages(h, s.order[h])
  {
    forall p: nat | p in s.FreePages() ensures p !in BlockPages(h, s.order[h]) {
      var g :| g in s.free && s.Holds(g, p);
      if s.Holds(h, p) { PageInOneBlock(s, g, h, p); }
    }
  }

  lemma GiveBackLists(v: View, h: nat, k: nat)
    requires Core(v) && h in v.shape.order && h !in v.shape.free && v.shape.order[h] == k < ORDER_COUNT && v.mem.Has(h)
    requires v.mem.At(h).order == k
    ensures var v' := v.GiveBack(h, k); ListsOk(v'.mem, v'.buddies, v'.lists) && ListsMatch(v'.lists, v'.shape)
  {
    assert Unlisted(v.lists, h);
    var v1 := v.Write(h, v.mem.At(h).(alloc := false));
    FrameLists(v.mem, v1.mem, v.buddies, v.lists);
    PushLists(v1.mem, v1.buddies, v1.lists, k, h);
  }

  // ---------------------------------------------------------------- creation

  /** A region under construction: everything but the page counter is in place. */
  ghost predicate Growing(v: View, limit: nat) {
    && v.shape.Tiled() && Greedy(v.shape, limit) && v.shape.free == v.shape.order.Keys
    && ListsOk(v.mem, v.buddies, v.lists) && MetaOk(v.mem, v.r, v.shape) && ListsMatch(v.lists, v.shape)
    && v.shape.hi <= limit <= v.mem.start + |v.mem.nodes|
    && Untouched(v.mem, v.shape.hi, limit)
  }

  ghost predicate Untouched(m: Mem, lo: nat, hi: nat) {
    forall p: nat :: lo <= p < hi && m.Has(p) ==> !m.At(p).avail && !m.At(p).alloc
  }

  lemma AppendLists(v: View, k: nat, limit: nat)
    requires Growing(v, limit) && k < ORDER_COUNT && v.mem.Has(v.shape.hi)
    ensures var v' := v.Append(k); ListsOk(v'.mem, v'.buddies, v'.lists) && ListsMatch(v'.lists, v'.shape)
  {
    var h, n := v.shape.hi, Node(k, v.r, false, false, true, 0);
    forall g: nat | g in v.shape.order ensures g < h { assert v.shape.BlockOk(g); }
    assert h !in v.shape.order;
    assert Unlisted(v.lists, h);
    WriteUnlisted(v.mem, v.buddies, v.lists, h, n);
    PushLists(v.mem.With(h, n), v.buddies, v.lists, k, h);
  }

  lemma AppendMeta(v: View, k: nat, limit: nat)
    requires Growing(v, limit) && k < ORDER_COUNT && v.mem.Has(v.shape.hi) && v.shape.hi + Pow(k) <= limit
    ensures var v' := v.Append(k); MetaOk(v'.mem, v.r, v'.shape)
  {
    var n := Relink(Node(k, v.r, false, false, true, 0), v.buddies[k]);
    ExtendMeta(v.mem, v.r, v.shape, k, n);
  }

  lemma ExtendMeta(m: Mem, r: nat, s: Shape, k: nat, n: Node)
    requires s.Tiled() && MetaOk(m, r, s) && m.Has(s.hi) && s.hi + Pow(k) <= m.start + |m.nodes|
    requires Untouched(m, s.hi, s.hi + Pow(k)) && n.avail && n.region == r && n.order == k && !n.alloc
    ensures MetaOk(m.With(s.hi, n), r, Extend(s, k))
  {
    forall g: nat | g in s.order ensures g < s.hi { assert s.BlockOk(g); }
    forall p: nat | s.lo <= p < s.hi + Pow(k) ensures NodeOk(m.With(s.hi, n).At(p), p, r, Extend(s, k)) {
      if p < s.hi {
        assert NodeOk(m.At(p), p, r, s);
      } else if p > s.hi {
        assert m.Has(p) && p !in s.order;
      }
    }
  }

  lemma AppendRest(m: Mem, h: nat, n: Node, lo: nat, hi: nat, limit: nat)
    requires m.Has(h) && lo <= h < hi <= limit && Untouched(m, h, limit)
    ensures Untouched(m.With(h, n), hi, limit) && SameOutside(m, m.With(h, n), lo, limit)
  {
    forall p: nat | hi <= p < limit && m.Has(p) ensures !m.With(h, n).At(p).avail && !m.With(h, n).At(p).alloc {
      assert !m.At(p).avail;
    }
  }

  lemma AppendGrows(v: View, k: nat, limit: nat)
    requires Growing(v, limit) && k < ORDER_COUNT && v.mem.Has(v.shape.hi)
    requires Aligned(v.shape.hi, k) && v.shape.hi + Pow(k) <= limit
    requires k < MAX_ORDER ==> !(Aligned(v.shape.hi, k + 1) && v.shape.hi + Pow(k + 1) <= limit)
    ensures Growing(v.Append(k), limit)
    ensures SameOutside(v.mem, v.Append(k).mem, v.shape.lo, limit)
  {
    ExtendTiles(v.shape, k);
    ExtendGreedy(v.shape, k, limit);
    AppendLists(v, k, limit);
    AppendMeta(v, k, limit);
    var n := Relink(Node(k, v.r, false, false, true, 0), v.buddies[k]);
    AppendRest(v.mem, v.shape.hi, n, v.shape.lo, v.shape.hi + Pow(k), limit);
  }

  lemma GrownCore(v: View)
    requires Growing(v, v.shape.hi) && v.avail == v.shape.hi - v.shape.lo
    ensures Core(v) && v.shape.Coalesced() && Used(v.shape) == map[]
  {
    GreedyIsCoalesced(v.shape);
    forall p: nat | v.shape.lo <= p < v.shape.hi ensures v.shape.FreePage(p) { assert v.shape.Covered(p); }
    RangeCard(v.shape.lo, v.avail, v.shape.FreePages());
  }
}
