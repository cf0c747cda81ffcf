/** The dynamic area of a process: five lists of blocks between which every address moves. */
module AddressSpace {
  import opened Common
  import opened List
  import opened Ranges

  datatype Kind = AvailKind | GenericKind | ThreadKind

  datatype Block = Block(r: Range, kind: Kind)

  function Spans(s: seq<Block>): (t: seq<Range>)
    ensures |t| == |s| && forall i :: 0 <= i < |s| ==> t[i] == s[i].r
  {
    seq(|s|, i requires 0 <= i < |s| => s[i].r)
  }

  ghost function Bag(s: seq<Block>): multiset<Range> { multiset(Spans(s)) }

  lemma BagInserted(s: seq<Block>, i: nat, b: Block)
    requires i <= |s|
    ensures Spans(Inserted(s, i, b)) == Inserted(Spans(s), i, b.r) && Bag(Inserted(s, i, b)) == Bag(s) + multiset{b.r}
  {
    InsertedBag(Spans(s), i, b.r);
    assert Spans(Inserted(s, i, b)) == Inserted(Spans(s), i, b.r);
  }

  lemma BagRemoved(s: seq<Block>, i: nat)
    requires i < |s|
    ensures Spans(Removed(s, i)) == Removed(Spans(s), i) && Bag(Removed(s, i)) == Bag(s) - multiset{s[i].r}
    ensures s[i].r in Bag(s)
  {
    RemovedBag(Spans(s), i);
    assert Spans(Removed(s, i)) == Removed(Spans(s), i);
    assert Spans(s)[i] in multiset(Spans(s));
  }

  lemma BagUpdated(s: seq<Block>, i: nat, b: Block)
    requires i < |s|
    ensures Spans(s[i := b]) == Spans(s)[i := b.r] && Bag(s[i := b]) == Bag(s) - multiset{s[i].r} + multiset{b.r}
    ensures s[i].r in Bag(s)
  {
    UpdatedBag(Spans(s), i, b.r);
    assert Spans(s[i := b]) == Spans(s)[i := b.r];
    assert Spans(s)[i] in multiset(Spans(s));
  }

  /** The lists of a process, and `flight`: the blocks that are between two lists. */
  datatype Layout = Layout(avail: seq<Block>, inuse: seq<Block>, reuse: seq<Block>,
                           sanitMapped: seq<Block>, sanitUnmapped: seq<Block>, flight: seq<Block>) {

    /** The blocks that are not available. */
    ghost function Busy(): multiset<Range> {
      Bag(inuse) + Bag(reuse) + Bag(sanitMapped) + Bag(sanitUnmapped) + Bag(flight)
    }

    ghost function BusyCount(): nat {
      |inuse| + |reuse| + |sanitMapped| + |sanitUnmapped| + |flight|
    }

    /** All blocks together partition `lo .. hi`, and the available ones are sorted and apart. */
    ghost predicate Ok(lo: int, hi: int) {
      Partition(Bag(avail) + Busy(), lo, hi) && Separated(Spans(avail))
    }
  }

  /** A process starts with the whole area available. */
  lemma WholeIsOk(l: Layout, lo: int, hi: int)
    requires lo < hi && l == Layout([Block(Range(lo, hi - lo), AvailKind)], [], [], [], [], [])
    ensures l.Ok(lo, hi)
  {
    var whole := Range(lo, hi - lo);
    assert Spans(l.avail) == [whole];
    var m := Bag(l.avail) + l.Busy();
    assert m == multiset{whole};
    forall a | lo <= a < hi ensures Covered(m, a) { assert whole in m && Has(whole, a); }
  }

  /** The cleaner's gate: with no active block the available list is the one original block. */
  lemma DrainedIsWhole(l: Layout, lo: int, hi: int)
    requires l.Ok(lo, hi) && lo < hi && l.BusyCount() == 0
    ensures Spans(l.avail) == [Range(lo, hi - lo)]
  {
    assert Bag(l.avail) + l.Busy() == Bag(l.avail);
    AloneIsWhole(Spans(l.avail), lo, hi);
  }

  /** The available list is a function of the blocks that are not: however blocks were handed out
      and taken back, the same active blocks leave the same available ones. */
  lemma SameActiveSameAvail(l: Layout, l': Layout, lo: int, hi: int)
    requires l.Ok(lo, hi) && l'.Ok(lo, hi) && l.Busy() == l'.Busy()
    ensures Spans(l.avail) == Spans(l'.avail)
  {
    SameBusySameFree(Spans(l.avail), Spans(l'.avail), l.Busy(), lo, hi);
  }

  /** A block in use that is empty or ends past the area breaks the partition. */
  lemma BadBlockBreaks(l: Layout, i: nat, lo: int, hi: int)
    requires i < |l.inuse| && (l.inuse[i].r.size <= 0 || End(l.inuse[i].r) > hi)
    ensures !l.Ok(lo, hi)
  {
    BagRemoved(l.inuse, i);
    assert l.inuse[i].r in Bag(l.avail) + l.Busy();
    assert (Bag(l.avail) + l.Busy())[l.inuse[i].r] > 0;
  }

  /** Rounding goes to the nearest page boundary below and, unless it wraps around, above. */
  lemma RoundingIsTight(a: nat)
    requires a + PAGE_SIZE <= WORD64
    ensures RoundDown(a) % PAGE_SIZE == 0 && RoundDown(a) <= a < RoundDown(a) + PAGE_SIZE
    ensures RoundUp(a) % PAGE_SIZE == 0 && RoundUp(a) - PAGE_SIZE < a <= RoundUp(a)
  {
    assert (a + PAGE_SIZE - 1) % WORD64 == a + PAGE_SIZE - 1;
  }

  /** Unless it wraps around, a request is widened to the whole pages that it touches. */
  lemma RequestIsCovered(base: nat, size: nat)
    requires base + size + PAGE_SIZE <= WORD64
    ensures RequestEnd(base, size) == RoundUp(base + size) && RequestSize(base, size) == RoundUp(base + size) - RoundDown(base)
  {
    assert (base + size) % WORD64 == base + size;
    RoundingIsTight(base);
    RoundingIsTight(base + size);
    SizeOfRequest(RoundDown(base), RoundUp(base + size));
  }

  /** Unless it wraps around, a request covers a page if it asks for any byte or starts off a page boundary. */
  lemma RequestIsEmpty(base: nat, size: nat)
    requires base + size + PAGE_SIZE <= WORD64
    ensures RequestEnd(base, size) > RoundDown(base) <==> size > 0 || base % PAGE_SIZE != 0
    ensures RequestEnd(base, size) >= RoundDown(base)
  {
    var top := base + size + PAGE_SIZE - 1;
    assert (base + size) % WORD64 == base + size && top % WORD64 == top;
    assert RequestEnd(base, size) == RoundDown(top);
  }

  /** Available block `i` becomes `rest`, if anything is left of it, and `b` takes flight. */
  ghost function Cut(l: Layout, i: nat, rest: Option<Range>, b: Block): Layout
    requires i < |l.avail|
  {
    l.(avail := if rest.None? then Removed(l.avail, i) else l.avail[i := l.avail[i].(r := rest.value)],
       flight := l.flight + [b])
  }

  lemma FlightBusy(l: Layout, l': Layout, b: Block)
    requires l' == l.(avail := l'.avail, flight := l.flight + [b])
    ensures l'.Busy() == l.Busy() + multiset{b.r}
  {
    BagInserted(l.flight, |l.flight|, b);
    assert l.flight + [b] == Inserted(l.flight, |l.flight|, b);
  }

  lemma BagSwap(m: multiset<Range>, n: multiset<Range>, t: Range, x: multiset<Range>, y: multiset<Range>)
    requires t in m
    ensures (m - multiset{t} + x) + (n + y) == (m + n) - multiset{t} + (x + y)
  {
  }

  lemma CutWholeOk(l: Layout, i: nat, b: Block, lo: int, hi: int)
    requires l.Ok(lo, hi) && i < |l.avail| && b.r == l.avail[i].r
    ensures Cut(l, i, None, b).Ok(lo, hi)
  {
    BagRemoved(l.avail, i);
    RemovedSeparated(Spans(l.avail), i);
    FlightBusy(l, Cut(l, i, None, b), b);
    assert Bag(Cut(l, i, None, b).avail) + Cut(l, i, None, b).Busy() == Bag(l.avail) + l.Busy();
  }

  lemma CutEither(t: Range, rest: Range, b: Range)
    requires rest.size > 0 && b.size > 0
    requires (t.base == rest.base && End(rest) == b.base && End(b) == End(t)) || (t.base == b.base && End(b) == rest.base && End(rest) == End(t))
    ensures Cuts(t, multiset{rest} + multiset{b})
  {
    assert multiset{rest} + multiset{b} == multiset{rest, b} == multiset{b, rest};
    if t.base == rest.base { CutTwo(t, rest, b); } else { CutTwo(t, b, rest); }
  }

  lemma CutPartOk(l: Layout, i: nat, rest: Range, b: Block, lo: int, hi: int)
    requires l.Ok(lo, hi) && i < |l.avail| && rest.size > 0 && b.r.size > 0
    requires var t := l.avail[i].r;
      || (t.base == rest.base && End(rest) == b.r.base && End(b.r) == End(t))
      || (t.base == b.r.base && End(b.r) == rest.base && End(rest) == End(t))
    ensures Cut(l, i, Some(rest), b).Ok(lo, hi)
  {
    var t := l.avail[i].r;
    CutEither(t, rest, b.r);
    BagUpdated(l.avail, i, l.avail[i].(r := rest));
    ShrinkSeparated(Spans(l.avail), i, rest);
    FlightBusy(l, Cut(l, i, Some(rest), b), b);
    CutKeepsPartition(Bag(l.avail) + l.Busy(), lo, hi, t, multiset{rest} + multiset{b.r});
    BagSwap(Bag(l.avail), l.Busy(), t, multiset{rest}, multiset{b.r});
  }

  /** Block `i` keeps its front, `extra` becomes its back, and `b` in between takes flight. */
  ghost function CutMiddle(l: Layout, i: nat, front: Range, b: Block, extra: Block): Layout
    requires i < |l.avail|
  {
    l.(avail := Inserted(l.avail[i := l.avail[i].(r := front)], i + 1, extra), flight := l.flight + [b])
  }

  lemma CutMiddleOk(l: Layout, i: nat, front: Range, b: Block, extra: Block, lo: int, hi: int)
    requires l.Ok(lo, hi) && i < |l.avail| && front.size > 0 && b.r.size > 0 && extra.r.size > 0
    requires front.base == l.avail[i].r.base && End(front) == b.r.base && End(b.r) == extra.r.base
    requires End(extra.r) == End(l.avail[i].r)
    ensures CutMiddle(l, i, front, b, extra).Ok(lo, hi)
  {
    var t, mid := l.avail[i].r, l.avail[i := l.avail[i].(r := front)];
    CutThree(t, front, b.r, extra.r);
    assert multiset{front} + multiset{extra.r} + multiset{b.r} == multiset{front, b.r, extra.r};
    BagUpdated(l.avail, i, l.avail[i].(r := front));
    BagInserted(mid, i + 1, extra);
    SplitSeparated(Spans(l.avail), i, front, extra.r);
    FlightBusy(l, CutMiddle(l, i, front, b, extra), b);
    CutKeepsPartition(Bag(l.avail) + l.Busy(), lo, hi, t, multiset{front} + multiset{extra.r} + multiset{b.r});
    BagSwap(Bag(l.avail), l.Busy(), t, multiset{front} + multiset{extra.r}, multiset{b.r});
    assert Bag(l.avail) - multiset{t} + multiset{front} + multiset{extra.r}
        == Bag(l.avail) - multiset{t} + (multiset{front} + multiset{extra.r});
  }

  /** Lists that hold the same blocks in other places. */
  lemma SameBlocksOk(l: Layout, l': Layout, lo: int, hi: int)
    requires l.Ok(lo, hi) && l'.avail == l.avail && l'.Busy() == l.Busy()
    ensures l'.Ok(lo, hi)
  {
  }

  lemma MoveBusy(from: seq<Block>, k: nat, to: seq<Block>, i: nat)
    requires k < |from| && i <= |to|
    ensures Bag(Removed(from, k)) + Bag(Inserted(to, i, from[k])) == Bag(from) + Bag(to)
  {
    BagRemoved(from, k);
    BagInserted(to, i, from[k]);
  }

  lemma FlightToInuse(l: Layout, k: nat, i: nat, lo: int, hi: int)
    requires l.Ok(lo, hi) && k < |l.flight| && i <= |l.inuse|
    ensures l.(inuse := Inserted(l.inuse, i, l.flight[k]), flight := Removed(l.flight, k)).Ok(lo, hi)
  {
    MoveBusy(l.flight, k, l.inuse, i);
    var l' := l.(inuse := Inserted(l.inuse, i, l.flight[k]), flight := Removed(l.flight, k));
    var rest := Bag(l.reuse) + Bag(l.sanitMapped) + Bag(l.sanitUnmapped);
    assert l.Busy() == rest + (Bag(l.flight) + Bag(l.inuse));
    assert l'.Busy() == rest + (Bag(l'.flight) + Bag(l'.inuse));
    SameBlocksOk(l, l', lo, hi);
  }

  /** The available list after `list_insert_merge_free_sorted`. */
  function Joined(avail: seq<Block>, b: Block): (merged: seq<Block>)
    ensures |merged| <= |avail| + 1
    ensures Spans(merged) == MergeAround(InsertSorted(Spans(avail), b.r), SortedIndex(Spans(avail), b.r.base))
  {
    var s, i := InsertSorted(Spans(avail), b.r), SortedIndex(Spans(avail), b.r.base);
    MergeShrinks(s, i);
    Available(MergeAround(s, i))
  }

  /** A block in flight returns to the available list and joins its neighbours. */
  lemma ReturnOk(l: Layout, k: nat, b: Block, lo: int, hi: int)
    requires l.Ok(lo, hi) && k < |l.flight| && l.flight[k] == b
    ensures l.(avail := Joined(l.avail, b), flight := Removed(l.flight, k)).Ok(lo, hi)
  {
    var l' := l.(avail := Joined(l.avail, b), flight := Removed(l.flight, k));
    BagRemoved(l.flight, k);
    assert Bag(l.avail) + multiset{b.r} + l'.Busy() == Bag(l.avail) + l.Busy();
    InsertMergeKeeps(Spans(l.avail), b.r, l'.Busy(), lo, hi);
  }

  /** The reuse list with block `b` offered to it: a stack is queued, anything else goes first. */
  function Queued(reuse: seq<Block>, b: Block): (q: seq<Block>)
    ensures |q| == |reuse| + 1
  {
    if b.kind == ThreadKind then Inserted(reuse, SortedPlace(reuse, b), b) else [b] + reuse
  }

  /** Freeing a removed block: the head of the queue is sanitized, the rest waits for reuse. */
  ghost function Freed(l: Layout, k: nat): Layout
    requires k < |l.flight|
  {
    var q := Queued(l.reuse, l.flight[k]);
    l.(reuse := q[1..], sanitMapped := Inserted(l.sanitMapped, SortedPlace(l.sanitMapped, q[0]), q[0]),
       flight := Removed(l.flight, k))
  }

  lemma HeadBag(q: seq<Block>)
    requires |q| > 0
    ensures Bag(q[1..]) + multiset{q[0].r} == Bag(q)
  {
    BagRemoved(q, 0);
    assert q[1..] == Removed(q, 0);
  }

  lemma QueuedBag(reuse: seq<Block>, b: Block)
    ensures Bag(Queued(reuse, b)) == Bag(reuse) + multiset{b.r}
  {
    if b.kind == ThreadKind {
      BagInserted(reuse, SortedPlace(reuse, b), b);
    } else {
      BagInserted(reuse, 0, b);
      assert [b] + reuse == Inserted(reuse, 0, b);
    }
  }

  lemma FreedBusy(l: Layout, k: nat)
    requires k < |l.flight|
    ensures Freed(l, k).Busy() == l.Busy()
  {
    var b, l' := l.flight[k], Freed(l, k);
    var q := Queued(l.reuse, b)[0];
    QueuedBag(l.reuse, b);
    HeadBag(Queued(l.reuse, b));
    BagInserted(l.sanitMapped, SortedPlace(l.sanitMapped, q), q);
    BagRemoved(l.flight, k);
    SixBags(Bag(l.reuse), Bag(l'.reuse), Bag(l.sanitMapped), Bag(l.flight), b.r, q.r);
    Regroup(Bag(l.inuse), Bag(l.reuse), Bag(l.sanitMapped), Bag(l.sanitUnmapped), Bag(l.flight));
    Regroup(Bag(l.inuse), Bag(l'.reuse), Bag(l'.sanitMapped), Bag(l.sanitUnmapped), Bag(l'.flight));
  }

  lemma Regroup(a: multiset<Range>, b: multiset<Range>, c: multiset<Range>, d: multiset<Range>, e: multiset<Range>)
    ensures a + b + c + d + e == a + d + (b + c + e)
  {
  }

  lemma FreedOk(l: Layout, k: nat, lo: int, hi: int)
    requires l.Ok(lo, hi) && k < |l.flight|
    ensures Freed(l, k).Ok(lo, hi)
  {
    FreedBusy(l, k);
    SameBlocksOk(l, Freed(l, k), lo, hi);
  }

  lemma SixBags(r: multiset<Range>, r': multiset<Range>, m: multiset<Range>, f: multiset<Range>, b: Range, q: Range)
    requires b in f && r' + multiset{q} == r + multiset{b}
    ensures r' + (m + multiset{q}) + (f - multiset{b}) == r + m + f
  {
    assert r' + (m + multiset{q}) + (f - multiset{b}) == (r' + multiset{q}) + m + (f - multiset{b});
  }

  /** Taking block `i` off the list of blocks in use, off the back of the reuse list, and off the
      front of the list of sanitized blocks. */
  lemma InuseToFlight(l: Layout, i: nat, lo: int, hi: int)
    requires l.Ok(lo, hi) && i < |l.inuse|
    ensures l.(inuse := Removed(l.inuse, i), flight := l.flight + [l.inuse[i]]).Ok(lo, hi)
  {
    MoveBusy(l.inuse, i, l.flight, |l.flight|);
    AtEnd(l.flight, l.inuse[i]);
    var l' := l.(inuse := Removed(l.inuse, i), flight := l.flight + [l.inuse[i]]);
    var rest := Bag(l.reuse) + Bag(l.sanitMapped) + Bag(l.sanitUnmapped);
    assert l.Busy() == rest + (Bag(l.inuse) + Bag(l.flight));
    assert l'.Busy() == rest + (Bag(l'.inuse) + Bag(l'.flight));
    SameBlocksOk(l, l', lo, hi);
  }

  lemma ReuseToFlight(l: Layout, i: nat, lo: int, hi: int)
    requires l.Ok(lo, hi) && i < |l.reuse|
    ensures l.(reuse := Removed(l.reuse, i), flight := l.flight + [l.reuse[i]]).Ok(lo, hi)
  {
    MoveBusy(l.reuse, i, l.flight, |l.flight|);
    AtEnd(l.flight, l.reuse[i]);
    var l' := l.(reuse := Removed(l.reuse, i), flight := l.flight + [l.reuse[i]]);
    var rest := Bag(l.inuse) + Bag(l.sanitMapped) + Bag(l.sanitUnmapped);
    assert l.Busy() == rest + (Bag(l.reuse) + Bag(l.flight));
    assert l'.Busy() == rest + (Bag(l'.reuse) + Bag(l'.flight));
    SameBlocksOk(l, l', lo, hi);
  }

  lemma UnmappedToFlight(l: Layout, i: nat, lo: int, hi: int)
    requires l.Ok(lo, hi) && i < |l.sanitUnmapped|
    ensures l.(sanitUnmapped := Removed(l.sanitUnmapped, i), flight := l.flight + [l.sanitUnmapped[i]]).Ok(lo, hi)
  {
    MoveBusy(l.sanitUnmapped, i, l.flight, |l.flight|);
    AtEnd(l.flight, l.sanitUnmapped[i]);
    var l' := l.(sanitUnmapped := Removed(l.sanitUnmapped, i), flight := l.flight + [l.sanitUnmapped[i]]);
    var rest := Bag(l.inuse) + Bag(l.reuse) + Bag(l.sanitMapped);
    assert l.Busy() == rest + (Bag(l.sanitUnmapped) + Bag(l.flight));
    assert l'.Busy() == rest + (Bag(l'.sanitUnmapped) + Bag(l'.flight));
    SameBlocksOk(l, l', lo, hi);
  }

  lemma MappedToUnmapped(l: Layout, i: nat, lo: int, hi: int)
    requires l.Ok(lo, hi) && i < |l.sanitMapped|
    ensures l.(sanitMapped := Removed(l.sanitMapped, i), sanitUnmapped := l.sanitUnmapped + [l.sanitMapped[i]]).Ok(lo, hi)
  {
    MoveBusy(l.sanitMapped, i, l.sanitUnmapped, |l.sanitUnmapped|);
    AtEnd(l.sanitUnmapped, l.sanitMapped[i]);
    var l' := l.(sanitMapped := Removed(l.sanitMapped, i), sanitUnmapped := l.sanitUnmapped + [l.sanitMapped[i]]);
    var rest := Bag(l.inuse) + Bag(l.reuse) + Bag(l.flight);
    assert l.Busy() == rest + (Bag(l.sanitMapped) + Bag(l.sanitUnmapped));
    assert l'.Busy() == rest + (Bag(l'.sanitMapped) + Bag(l'.sanitUnmapped));
    SameBlocksOk(l, l', lo, hi);
  }

  lemma AtEnd(s: seq<Block>, b: Block)
    ensures s + [b] == Inserted(s, |s|, b)
  {
  }

  function SortedPlace(s: seq<Block>, b: Block): (i: nat)
    ensures i <= |s|
  {
    SortedIndex(Spans(s), b.r.base)
  }

  class Process {
    const lo: nat
    const hi: nat
    var avail: seq<Block>
    var inuse: seq<Block>
    var reuse: seq<Block>
    var sanitMapped: seq<Block>
    var sanitUnmapped: seq<Block>
    var numActive: nat
    var numObjs: nat

    // Blocks between two lists, and block structs that hold no block at the moment.
    ghost var flight: seq<Block>
    ghost var spare: nat

    ghost function L(): Layout
      reads this
    {
      Layout(avail, inuse, reuse, sanitMapped, sanitUnmapped, flight)
    }

    /** The lists partition the area and the counters are exact. */
    ghost predicate Valid()
      reads this
    {
      Counted() && L().Ok(lo, hi)
    }

    /** The counters of blocks that are not available and of live structs are exact. */
    ghost predicate Counted()
      reads this
    {
      && 0 < lo < hi < WORD64
      && numActive == |inuse| + |reuse| + |sanitMapped| + |sanitUnmapped| + |flight|
      && numObjs == |avail| + numActive + spare
    }

    constructor (start: nat, end: nat)
      requires 0 < start < end < WORD64
      ensures Valid() && lo == start && hi == end && spare == 0
      ensures L() == Layout([Block(Range(start, end - start), AvailKind)], [], [], [], [], [])
    {
      lo, hi := start, end;
      avail := [Block(Range(start, end - start), AvailKind)];
      inuse, reuse, sanitMapped, sanitUnmapped, flight := [], [], [], [], [];
      numActive, numObjs, spare := 0, 1, 0;
      new;
      WholeIsOk(L(), lo, hi);
    }

    /** When the cleaner sees no active block, one struct is live and it is the original block. */
    lemma Drained()
      requires Valid() && numActive == 0 && spare == 0
      ensures Spans(avail) == [Range(lo, hi - lo)] && numObjs == 1
    {
      DrainedIsWhole(L(), lo, hi);
    }

    // ------------------------------------------------------------ critical sections

    method CutAvail(i: nat, rest: Option<Range>, ghost b: Block)
      requires i < |avail| && spare > 0
      modifies this`avail, this`numActive, this`flight, this`spare
      ensures L() == Cut(old(L()), i, rest, b) && numActive == old(numActive) + 1
      ensures spare == old(spare) - (if rest.Some? then 1 else 0)
    {
      if rest.None? {
        avail := Removed(avail, i);
      } else {
        avail := avail[i := avail[i].(r := rest.value)];
        spare := spare - 1;
      }
      numActive := numActive + 1;
      flight := flight + [b];
    }

    /** Cuts `size` bytes off the back of the last available block.  0 means it is too small. */
    method TakeBack(size: nat) returns (base: nat, deleted: bool)
      requires Valid() && size > 0 && spare > 0
      modifies this`avail, this`numActive, this`flight, this`spare
      ensures Valid()
      ensures base == 0 ==> L() == old(L()) && spare == old(spare) && !deleted
      ensures base == 0 <==> LastRange(old(avail)).size < size
      ensures base != 0 ==> L() == old(L()).(avail := avail, flight := old(flight) + [Block(Range(base, size), ThreadKind)])
      ensures base != 0 ==> base + size == End(LastRange(old(avail)))
      ensures base != 0 ==> spare == old(spare) - (if deleted then 0 else 1)
    {
      if avail == [] {
        return 0, false;
      }
      var i := |avail| - 1;
      var last := avail[i].r;
      if last.size < size {
        return 0, false;
      }
      LastInBounds(L(), i, lo, hi);
      base := last.base + last.size - size;
      ghost var b := Block(Range(base, size), ThreadKind);
      deleted := last.size == size;
      var rest := if deleted then None else Some(last.(size := last.size - size));
      if deleted {
        CutWholeOk(L(), i, b, lo, hi);
      } else {
        CutPartOk(L(), i, rest.value, b, lo, hi);
      }
      CutAvail(i, rest, b);
    }

    /** The first available block that fits the request, or `|avail|`. */
    method FindFit(base: nat, end: nat, size: nat) returns (i: nat)
      ensures i == FirstFit(avail, base, end, size)
      ensures base == 0 ==> (forall j :: 0 <= j < i ==> avail[j].r.size < size) && (i == |avail| || avail[i].r.size >= size)
      ensures base != 0 ==> forall j :: 0 <= j < i ==> base < avail[j].r.base || End(avail[j].r) < end
      ensures base != 0 ==> i == |avail| || (avail[i].r.base <= base && end <= End(avail[i].r))
    {
      i := 0;
      while i < |avail|
        invariant 0 <= i <= |avail| && forall j :: 0 <= j < i ==> !Fits(avail[j].r, base, end, size)
      {
        if Fits(avail[i].r, base, end, size) {
          return;
        }
        i := i + 1;
      }
    }

    method InsertExtra(i: nat, front: Range, extra: Block, ghost b: Block)
      requires i < |avail| && spare > 1
      modifies this`avail, this`numActive, this`flight, this`spare
      ensures L() == CutMiddle(old(L()), i, front, b, extra) && numActive == old(numActive) + 1 && spare == old(spare) - 2
    {
      avail := Inserted(avail[i := avail[i].(r := front)], i + 1, extra);
      numActive := numActive + 1;
      flight := flight + [b];
      spare := spare - 2;
    }

    /** Cuts `base .. end` out of available block `i`. */
    method TakeAt(i: nat, base: nat, end: nat, size: nat) returns (deleted: bool, extraUsed: bool)
      requires Counted() && spare > 1 && i < |avail|
      modifies this`avail, this`numActive, this`flight, this`spare
      ensures Counted()
      ensures L() == old(L()).(avail := Carved(old(avail), i, base, end, size), flight := old(flight) + [Block(Range(base, size), GenericKind)])
      ensures spare == old(spare) - 1 + (if deleted then 1 else 0) - (if extraUsed then 1 else 0)
    {
      var t := avail[i].r;
      ghost var b := Block(Range(base, size), GenericKind);
      deleted, extraUsed := false, false;
      if t.base == base {
        if End(t) == end {
          deleted := true;
          CutAvail(i, None, b);
        } else {
          CutAvail(i, Some(Range((t.base + size) % WORD64, (t.size - size) % WORD64)), b);
        }
      } else if End(t) == end {
        CutAvail(i, Some(t.(size := (t.size - size) % WORD64)), b);
      } else {
        extraUsed := true;
        InsertExtra(i, t.(size := base - t.base), Block(Range(end, End(t) - end), AvailKind), b);
      }
    }

    /** A block in flight joins the list of blocks in use. */
    method PutInuse(b: Block, ghost k: nat)
      requires Counted() && k < |flight| && flight[k] == b
      modifies this`inuse, this`flight
      ensures Counted() && (old(L().Ok(lo, hi)) ==> L().Ok(lo, hi))
      ensures L() == old(L()).(inuse := Inserted(old(inuse), SortedPlace(old(inuse), b), b), flight := Removed(old(flight), k))
    {
      if L().Ok(lo, hi) {
        FlightToInuse(L(), k, SortedPlace(inuse, b), lo, hi);
      }
      inuse := Inserted(inuse, SortedPlace(inuse, b), b);
      flight := Removed(flight, k);
    }

    method AllocObj()
      requires Counted()
      modifies this`numObjs, this`spare
      ensures Counted() && spare == old(spare) + 1
    {
      numObjs := numObjs + 1;
      spare := spare + 1;
    }

    method FreeObj()
      requires Counted() && spare > 0
      modifies this`numObjs, this`spare
      ensures Counted() && spare == old(spare) - 1
    {
      numObjs := numObjs - 1;
      spare := spare - 1;
    }

    /** Cuts `base .. end` out of available block `i` and puts it to use. */
    method Carve(i: nat, base: nat, end: nat, size: nat) returns (b: Block)
      requires Counted() && spare > 1 && i < |avail|
      modifies this
      ensures Counted() && spare == old(spare) - 2 && b == Block(Range(base, size), GenericKind)
      ensures L() == Granted(old(L()), i, b, end)
    {
      var deleted, extraUsed := TakeAt(i, base, end, size);
      b := Block(Range(base, size), GenericKind);
      DropLast(old(flight), b);
      PutInuse(b, |old(flight)|);
      if deleted {
        FreeObj();
      }
      if !extraUsed {
        FreeObj();
      }
    }

    method TakeInuse(i: nat) returns (b: Block)
      requires Valid() && i < |inuse|
      modifies this`inuse, this`flight
      ensures Valid() && b == old(inuse)[i]
      ensures L() == old(L()).(inuse := Removed(old(inuse), i), flight := old(flight) + [b])
    {
      InuseToFlight(L(), i, lo, hi);
      b := inuse[i];
      inuse := Removed(inuse, i);
      flight := flight + [b];
    }

    method PopReuse() returns (b: Block)
      requires Valid() && |reuse| > 0
      modifies this`reuse, this`flight
      ensures Valid() && b == old(reuse)[|old(reuse)| - 1]
      ensures L() == old(L()).(reuse := Removed(old(reuse), |old(reuse)| - 1), flight := old(flight) + [b])
    {
      var i := |reuse| - 1;
      ReuseToFlight(L(), i, lo, hi);
      b := reuse[i];
      reuse := Removed(reuse, i);
      flight := flight + [b];
    }

    method PopUnmapped() returns (b: Block)
      requires Valid() && |sanitUnmapped| > 0
      modifies this`sanitUnmapped, this`flight
      ensures Valid() && b == old(sanitUnmapped)[0]
      ensures L() == old(L()).(sanitUnmapped := Removed(old(sanitUnmapped), 0), flight := old(flight) + [b])
    {
      UnmappedToFlight(L(), 0, lo, hi);
      b := sanitUnmapped[0];
      sanitUnmapped := Removed(sanitUnmapped, 0);
      flight := flight + [b];
    }

    method OfferForReuse(b: Block) returns (sanit: Block)
      modifies this`reuse
      ensures sanit == Queued(old(reuse), b)[0] && reuse == Queued(old(reuse), b)[1..]
    {
      sanit := b;
      if b.kind == ThreadKind {
        var q := Inserted(reuse, SortedPlace(reuse, b), b);
        sanit, reuse := q[0], q[1..];
      }
    }

    /** Queues a block for the shootdown: the block itself, or by way of the reuse list if it is a stack. */
    method FreeRemovedBlock(b: Block, ghost k: nat) returns (sanit: Block)
      requires Valid() && k < |flight| && flight[k] == b
      modifies this`reuse, this`sanitMapped, this`flight
      ensures Valid() && L() == Freed(old(L()), k) && sanit == Queued(old(reuse), b)[0]
    {
      sanit := OfferForReuse(b);
      sanitMapped := Inserted(sanitMapped, SortedPlace(sanitMapped, sanit), sanit);
      flight := Removed(flight, k);
      assert L() == Freed(old(L()), k);
      FreedOk(old(L()), k, lo, hi);
    }

    method Join(b: Block, ghost k: nat) returns (merged: seq<Block>)
      requires L().Ok(lo, hi) && k < |flight| && flight[k] == b
      ensures |merged| <= |avail| + 1 && L().(avail := merged, flight := Removed(flight, k)).Ok(lo, hi)
    {
      ReturnOk(L(), k, b, lo, hi);
      merged := Joined(avail, b);
    }

    /** A block in flight becomes available, merging with its neighbours; merged structs are freed. */
    method ReturnToAvail(b: Block, ghost k: nat)
      requires Valid() && k < |flight| && flight[k] == b
      modifies this`avail, this`flight, this`numActive, this`numObjs
      ensures Valid()
      ensures L() == old(L()).(avail := avail, flight := Removed(old(flight), k))
    {
      var merged := Join(b, k);
      numActive := numActive - 1;
      numObjs := numObjs - (|avail| + 1 - |merged|);
      avail := merged;
      flight := Removed(flight, k);
    }

    // ------------------------------------------------------------ operations

    /** Allocates the pages of `base0 .. base0 + size0`, or any run of that many pages if they start
        at address 0.  A request that is refused changes nothing.  One that is granted keeps the
        lists right if and only if its end, wrapped around, is above its base. */
    method VmAlloc(base0: nat, size0: nat) returns (b: Option<Block>)
      requires Valid() && base0 < WORD64 && size0 < WORD64
      modifies this
      ensures Counted() && spare == old(spare)
      ensures var i := FirstFit(old(avail), RoundDown(base0), RequestEnd(base0, size0), RequestSize(base0, size0));
        if i == |old(avail)| then b.None? && L() == old(L())
        else b.Some? && Answers(b.value, old(avail)[i].r, base0, size0)
             && L() == Granted(old(L()), i, b.value, GrantEnd(b.value, base0, size0))
      ensures RoundDown(base0) == 0 ==> (b.None? <==>
        forall j :: 0 <= j < |old(avail)| ==> old(avail)[j].r.size < RequestSize(base0, size0))
      ensures RoundDown(base0) != 0 ==> (b.None? <==>
        forall j :: 0 <= j < |old(avail)| ==> RoundDown(base0) < old(avail)[j].r.base || End(old(avail)[j].r) < RequestEnd(base0, size0))
      ensures L().Ok(lo, hi) <==> b.None? || RequestEnd(base0, size0) > RoundDown(base0)
    {
      var end := RequestEnd(base0, size0);
      var base := RoundDown(base0);
      var size := RequestSize(base0, size0);
      AllocObj();
      AllocObj();
      var i := FindFit(base, end, size);
      if i == |avail| {
        FreeObj();
        FreeObj();
        return None;
      }
      LastInBounds(L(), i, lo, hi);
      var start: nat := if base != 0 then base else avail[i].r.base;
      var block := Carve(i, start, if base != 0 then end else start + size, size);
      RequestFits(block, old(avail)[i].r, base0, size0, hi);
      GrantedOk(old(L()), i, block, GrantEnd(block, base0, size0), lo, hi);
      return Some(block);
    }

    /** Allocates a stack: one waiting for reuse if there is one, else the top of the last
        available block. */
    method VmAllocThread(size: nat) returns (b: Option<Block>)
      requires Valid() && size > 0 && (reuse != [] ==> reuse[|reuse| - 1].r.size == size)
      modifies this
      ensures Valid() && spare == old(spare) && sanitMapped == old(sanitMapped) && sanitUnmapped == old(sanitUnmapped)
      ensures b.None? ==> L() == old(L())
      ensures b.None? <==> old(reuse) == [] && LastRange(old(avail)).size < size
      ensures b.Some? ==> b.value.r.size == size
      ensures b.Some? ==> inuse == Inserted(old(inuse), SortedPlace(old(inuse), b.value), b.value) && flight == old(flight)
      ensures b.Some? && old(reuse) == [] ==> Stacked(old(L()), L(), b.value, size)
      ensures b.Some? && old(reuse) != [] ==> avail == old(avail) && b.value == old(reuse)[|old(reuse)| - 1]
      ensures b.Some? && old(reuse) != [] ==> L() == old(L()).(inuse := inuse, reuse := old(reuse)[..|old(reuse)| - 1])
    {
      if reuse != [] {
        var old0 := PopReuse();
        DropLast(old(flight), old0);
        PutInuse(old0, |old(flight)|);
        return Some(old0);
      }
      b := NewStack(size);
    }

    method NewStack(size: nat) returns (b: Option<Block>)
      requires Valid() && size > 0
      modifies this
      ensures Valid() && spare == old(spare)
      ensures b.None? ==> L() == old(L())
      ensures b.None? <==> LastRange(old(avail)).size < size
      ensures b.Some? ==> Stacked(old(L()), L(), b.value, size)
    {
      AllocObj();
      var base, deleted := TakeBack(size);
      if base == 0 {
        FreeObj();
        return None;
      }
      b := Some(Block(Range(base, size), ThreadKind));
      ghost var cut := L();
      Finish(b.value, |old(flight)|, deleted);
      StackedFrom(old(L()), cut, L(), b.value, size);
    }

    method Finish(block: Block, ghost k: nat, deleted: bool)
      requires Valid() && k < |flight| && flight[k] == block && (deleted ==> spare > 0)
      modifies this`inuse, this`flight, this`numObjs, this`spare
      ensures Valid() && spare == old(spare) - if deleted then 1 else 0
      ensures L() == old(L()).(inuse := Inserted(old(inuse), SortedPlace(old(inuse), block), block), flight := Removed(old(flight), k))
    {
      PutInuse(block, k);
      if deleted {
        FreeObj();
      }
    }

    /** Frees the block in use at `base`; false where the source panics for want of one. */
    method VmFree(base: int) returns (ok: bool, sanit: Option<Block>, ghost j: nat)
      requires Valid()
      modifies this`inuse, this`reuse, this`sanitMapped, this`flight
      ensures Valid() && ok == sanit.Some? && (!ok ==> L() == old(L()))
      ensures ok <==> exists j :: 0 <= j < |old(inuse)| && old(inuse)[j].r.base == base
      ensures ok ==> j < |old(inuse)| && old(inuse)[j].r.base == base
      ensures ok ==> L() == FreedFromUse(old(L()), j) && sanit.value == Queued(old(reuse), old(inuse)[j])[0]
    {
      var i := 0;
      while i < |inuse| && inuse[i].r.base != base
        invariant 0 <= i <= |inuse| && forall j :: 0 <= j < i ==> inuse[j].r.base != base
        invariant L() == old(L())
      {
        i := i + 1;
      }
      ok, sanit, j := i < |inuse|, None, i;
      if ok {
        var b := FreeInuse(i);
        sanit := Some(b);
      }
    }

    method FreeInuse(i: nat) returns (sanit: Block)
      requires Valid() && i < |inuse|
      modifies this`inuse, this`reuse, this`sanitMapped, this`flight
      ensures Valid() && L() == FreedFromUse(old(L()), i) && sanit == Queued(old(reuse), old(inuse)[i])[0]
    {
      var b := TakeInuse(i);
      sanit := FreeRemovedBlock(b, |flight| - 1);
    }

    /** Every block in use is freed, in list order; the reuse list stays empty if it was. */
    method VmPurge() returns (count: nat)
      requires Valid()
      modifies this`inuse, this`reuse, this`sanitMapped, this`flight
      ensures Valid() && inuse == [] && count == |old(inuse)| && |reuse| == |old(reuse)|
      ensures L() == old(L()).(inuse := [], reuse := reuse, sanitMapped := sanitMapped)
      ensures multiset(reuse) + multiset(sanitMapped) == old(multiset(reuse) + multiset(sanitMapped) + multiset(inuse))
    {
      count := 0;
      while inuse != []
        invariant Valid() && count + |inuse| == |old(inuse)| && |reuse| == |old(reuse)|
        invariant L() == old(L()).(inuse := inuse, reuse := reuse, sanitMapped := sanitMapped)
        invariant multiset(reuse) + multiset(sanitMapped) + multiset(inuse) == old(multiset(reuse) + multiset(sanitMapped) + multiset(inuse))
        decreases |inuse|
      {
        FreedFlight(L(), 0);
        FreedKeepsBlocks(L(), 0);
        var sanit := FreeInuse(0);
        count := count + 1;
      }
    }

    /** The shootdown of block `i` is complete. */
    method MoveToSanitUnmapped(i: nat)
      requires Counted() && i < |sanitMapped|
      modifies this`sanitMapped, this`sanitUnmapped
      ensures Counted() && (old(Valid()) ==> Valid())
      ensures L() == old(L()).(sanitMapped := Removed(old(sanitMapped), i), sanitUnmapped := old(sanitUnmapped) + [old(sanitMapped)[i]])
    {
      if L().Ok(lo, hi) {
        MappedToUnmapped(L(), i, lo, hi);
      }
      var b := sanitMapped[i];
      sanitMapped := Removed(sanitMapped, i);
      sanitUnmapped := sanitUnmapped + [b];
    }

    /** Every sanitized block becomes available; once nothing else is active, all of the area is. */
    method MoveSanitToAvail()
      requires Valid()
      modifies this`avail, this`sanitUnmapped, this`flight, this`numActive, this`numObjs
      ensures Valid() && L() == old(L()).(avail := avail, sanitUnmapped := [])
      ensures numActive == old(numActive) - |old(sanitUnmapped)|
      ensures numActive == 0 ==> Spans(avail) == [Range(lo, hi - lo)]
    {
      while sanitUnmapped != []
        invariant Valid() && L() == old(L()).(avail := avail, sanitUnmapped := sanitUnmapped)
        decreases |sanitUnmapped|
      {
        var b := PopUnmapped();
        DropLast(old(flight), b);
        ReturnToAvail(b, |old(flight)|);
      }
      if numActive == 0 {
        DrainedIsWhole(L(), lo, hi);
      }
    }

    /** The cleaner's last step frees the one struct that is left. */
    method VmDestroy() returns (count: nat)
      requires Valid() && numActive == 0 && spare == 0
      modifies this`avail, this`numObjs
      ensures avail == [] && numObjs == 0 && count == 1
    {
      DrainedIsWhole(L(), lo, hi);
      assert |Spans(avail)| == 1;
      count := 0;
      while avail != []
        invariant numObjs == |avail| && count + |avail| == 1
        decreases |avail|
      {
        avail := avail[1..];
        numObjs := numObjs - 1;
        count := count + 1;
      }
    }
  }

  /** Block `i` leaves use and is freed. */
  ghost function FreedFromUse(l: Layout, i: nat): Layout
    requires i < |l.inuse|
  {
    Freed(l.(inuse := Removed(l.inuse, i), flight := l.flight + [l.inuse[i]]), |l.flight|)
  }

  lemma FreedFlight(l: Layout, i: nat)
    requires i < |l.inuse|
    ensures var l' := FreedFromUse(l, i);
      l' == l.(inuse := Removed(l.inuse, i), reuse := l'.reuse, sanitMapped := l'.sanitMapped) && |l'.reuse| == |l.reuse|
  {
    DropLast(l.flight, l.inuse[i]);
  }

  /** A freed block is on its way to be sanitized, or waits for reuse in place of another that is. */
  lemma FreedKeepsBlocks(l: Layout, i: nat)
    requires i < |l.inuse|
    ensures var l' := FreedFromUse(l, i);
      multiset(l'.reuse) + multiset(l'.sanitMapped) + multiset(l'.inuse) == multiset(l.reuse) + multiset(l.sanitMapped) + multiset(l.inuse)
  {
    var b, l' := l.inuse[i], FreedFromUse(l, i);
    assert (l.flight + [b])[|l.flight|] == b;
    var q := Queued(l.reuse, b);
    if b.kind == ThreadKind { InsertedBag(l.reuse, SortedPlace(l.reuse, b), b); }
    assert multiset(q) == multiset(l.reuse) + multiset{b};
    assert q == [q[0]] + q[1..];
    InsertedBag(l.sanitMapped, SortedPlace(l.sanitMapped, q[0]), q[0]);
    RemovedBag(l.inuse, i);
    assert multiset(l'.inuse) + multiset{b} == multiset(l.inuse);
    ThreeBags(multiset(l.reuse), multiset(q[1..]), multiset(l.sanitMapped), multiset(l'.inuse), multiset{b}, multiset{q[0]});
  }

  lemma ThreeBags(r: multiset<Block>, r': multiset<Block>, m: multiset<Block>, u: multiset<Block>, b: multiset<Block>, q: multiset<Block>)
    requires q + r' == r + b
    ensures r' + (m + q) + u == r + m + (u + b)
  {
    assert r' + (m + q) + u == (q + r') + m + u;
  }

  /** Blocks of the given ranges; the kind of an available block is never looked at. */
  function Available(ranges: seq<Range>): (s: seq<Block>)
    ensures |s| == |ranges| && Spans(s) == ranges
  {
    seq(|ranges|, i requires 0 <= i < |ranges| => Block(ranges[i], AvailKind))
  }

  /** Block `b` of the given size, cut off the end of the last available block, is in use. */
  ghost predicate Stacked(l: Layout, m: Layout, b: Block, size: nat) {
    && b.r.size == size && b.kind == ThreadKind && End(b.r) == End(LastRange(l.avail))
    && m == l.(avail := m.avail, inuse := Inserted(l.inuse, SortedPlace(l.inuse, b), b))
  }

  lemma StackedFrom(l: Layout, cut: Layout, m: Layout, b: Block, size: nat)
    requires cut == l.(avail := cut.avail, flight := l.flight + [b])
    requires m == cut.(inuse := Inserted(l.inuse, SortedPlace(l.inuse, b), b), flight := Removed(cut.flight, |l.flight|))
    requires b.r.size == size && b.kind == ThreadKind && End(b.r) == End(LastRange(l.avail))
    ensures Stacked(l, m, b, size)
  {
    DropLast(l.flight, b);
  }

  lemma DropLast(s: seq<Block>, b: Block)
    ensures Removed(s + [b], |s|) == s
  {
  }

  /** The available list after `base .. end` was cut out of block `i`, in words of 64 bits. */
  function Carved(s: seq<Block>, i: nat, base: int, end: int, size: int): seq<Block>
    requires i < |s|
  {
    var t := s[i].r;
    if t.base == base then
      if End(t) == end then Removed(s, i)
      else s[i := s[i].(r := Range((t.base + size) % WORD64, (t.size - size) % WORD64))]
    else if End(t) == end then s[i := s[i].(r := t.(size := (t.size - size) % WORD64))]
    else Inserted(s[i := s[i].(r := t.(size := base - t.base))], i + 1, Block(Range(end, End(t) - end), AvailKind))
  }

  /** Block `b`, which is to end at `end`, was cut out of available block `i` and is in use. */
  ghost function Granted(l: Layout, i: nat, b: Block, end: int): Layout
    requires i < |l.avail|
  {
    l.(avail := Carved(l.avail, i, b.r.base, end, b.r.size), inuse := Inserted(l.inuse, SortedPlace(l.inuse, b), b))
  }

  /** Where nothing wraps around, the cut takes the whole block, its front, its back or its middle. */
  lemma CarvedPlainly(s: seq<Block>, i: nat, r: Range)
    requires i < |s| && 0 <= s[i].r.base && End(s[i].r) < WORD64 && r.size > 0 && Within(s[i].r, r.base, r.size)
    ensures var t := s[i].r;
      Carved(s, i, r.base, End(r), r.size) ==
      if t == r then Removed(s, i)
      else if t.base == r.base then s[i := s[i].(r := Range(End(r), End(t) - End(r)))]
      else if End(t) == End(r) then s[i := s[i].(r := t.(size := r.base - t.base))]
      else Inserted(s[i := s[i].(r := t.(size := r.base - t.base))], i + 1, Block(Range(End(r), End(t) - End(r)), AvailKind))
  {
  }

  lemma CarvedOk(l: Layout, i: nat, b: Block, lo: int, hi: int)
    requires l.Ok(lo, hi) && 0 < lo && hi < WORD64 && i < |l.avail| && b.r.size > 0
    requires Within(l.avail[i].r, b.r.base, b.r.size)
    ensures l.(avail := Carved(l.avail, i, b.r.base, End(b.r), b.r.size), flight := l.flight + [b]).Ok(lo, hi)
  {
    var t := l.avail[i].r;
    LastInBounds(l, i, lo, hi);
    CarvedPlainly(l.avail, i, b.r);
    var now := Carved(l.avail, i, b.r.base, End(b.r), b.r.size);
    var front, back := t.(size := b.r.base - t.base), Range(End(b.r), End(t) - End(b.r));
    if t == b.r {
      assert now == Cut(l, i, None, b).avail;
      CutWholeOk(l, i, b, lo, hi);
    } else if t.base == b.r.base {
      assert now == Cut(l, i, Some(back), b).avail;
      CutPartOk(l, i, back, b, lo, hi);
    } else if End(t) == End(b.r) {
      assert now == Cut(l, i, Some(front), b).avail;
      CutPartOk(l, i, front, b, lo, hi);
    } else {
      assert now == CutMiddle(l, i, front, b, Block(back, AvailKind)).avail;
      CutMiddleOk(l, i, front, b, Block(back, AvailKind), lo, hi);
    }
  }

  /** A block that lies inside the available one is granted rightly; an empty one, or one past the
      end of the area, never is. */
  lemma GrantedOk(l: Layout, i: nat, b: Block, end: int, lo: int, hi: int)
    requires l.Ok(lo, hi) && 0 < lo && hi < WORD64 && i < |l.avail|
    requires b.r.size > 0 && End(b.r) <= hi ==> end == End(b.r) && Within(l.avail[i].r, b.r.base, b.r.size)
    ensures Granted(l, i, b, end).Ok(lo, hi) <==> b.r.size > 0 && End(b.r) <= hi
  {
    var l' := Granted(l, i, b, end);
    if b.r.size > 0 && End(b.r) <= hi {
      var cut := l.(avail := l'.avail, flight := l.flight + [b]);
      CarvedOk(l, i, b, lo, hi);
      FlightToInuse(cut, |l.flight|, SortedPlace(l.inuse, b), lo, hi);
      DropLast(l.flight, b);
      assert l' == cut.(inuse := Inserted(l.inuse, SortedPlace(l.inuse, b), b), flight := Removed(cut.flight, |l.flight|));
    } else {
      assert l'.inuse[SortedPlace(l.inuse, b)] == b;
      BadBlockBreaks(l', SortedPlace(l.inuse, b), lo, hi);
    }
  }

  /** A request whose end is above its base stays in place; any other becomes empty or wraps around. */
  lemma RequestFits(b: Block, t: Range, base0: nat, size0: nat, hi: nat)
    requires base0 < WORD64 && size0 < WORD64 && hi < WORD64 && 0 < t.base && 0 < t.size && End(t) <= hi
    requires Fits(t, RoundDown(base0), RequestEnd(base0, size0), RequestSize(base0, size0)) && Answers(b, t, base0, size0)
    ensures RequestEnd(base0, size0) > RoundDown(base0) <==> b.r.size > 0 && End(b.r) <= hi
    ensures b.r.size > 0 && End(b.r) <= hi ==> GrantEnd(b, base0, size0) == End(b.r) && Within(t, b.r.base, b.r.size)
  {
    var end, base := RequestEnd(base0, size0), RoundDown(base0);
    assert end < WORD64 && base < WORD64;
    SizeOfRequest(base, end);
  }

  lemma SizeOfRequest(base: nat, end: nat)
    requires base < WORD64 && end < WORD64
    ensures (end - base) % WORD64 == if end >= base then end - base else end - base + WORD64
  {
  }

  /** An empty request strictly inside an available block also cuts it into two that touch. */
  lemma EmptyRequestTouches(s: seq<Block>, i: nat, base: int)
    requires i < |s| && s[i].r.base < base < End(s[i].r)
    ensures !Separated(Spans(Carved(s, i, base, base, 0)))
  {
    var t := Spans(Carved(s, i, base, base, 0));
    assert End(t[i]) == base == t[i + 1].base;
    assert !Gap(t[i], t[i + 1]);
  }

  /** No bytes at a page boundary inside a fresh area: the request is granted, an empty block is in
      use and the available block is in two pieces that touch. */
  method EmptyRequest() returns (p: Process, b: Option<Block>)
    ensures b == Some(Block(Range(0x4000, 0), GenericKind)) && p.inuse == [b.value]
    ensures Spans(p.avail) == [Range(0x1000, 0x3000), Range(0x4000, 0xc000)]
    ensures !p.L().Ok(p.lo, p.hi) && !Separated(Spans(p.avail))
  {
    p := new Process(0x1000, 0x10000);
    ghost var was := p.L();
    RequestIsEmpty(0x4000, 0);
    EmptyGrant(was);
    b := p.VmAlloc(0x4000, 0);
    TwoPieces(was, p.L());
  }

  lemma TwoPieces(was: Layout, l: Layout)
    requires was.avail == [Block(Range(0x1000, 0xf000), AvailKind)] && l.avail == Carved(was.avail, 0, 0x4000, 0x4000, 0)
    ensures Spans(l.avail) == [Range(0x1000, 0x3000), Range(0x4000, 0xc000)] && !Separated(Spans(l.avail))
  {
    EmptyRequestTouches(was.avail, 0, 0x4000);
  }

  lemma EmptyGrant(l: Layout)
    requires l == Layout([Block(Range(0x1000, 0xf000), AvailKind)], [], [], [], [], [])
    ensures RoundDown(0x4000) == RequestEnd(0x4000, 0) == 0x4000 && RequestSize(0x4000, 0) == 0
    ensures FirstFit(l.avail, 0x4000, 0x4000, 0) == 0
    ensures var b := Block(Range(0x4000, 0), GenericKind);
      Granted(l, 0, b, 0x4000) == l.(inuse := [b],
        avail := [Block(Range(0x1000, 0x3000), AvailKind), Block(Range(0x4000, 0xc000), AvailKind)])
  {
  }

  /** A request for as many bytes as there are, wherever they may be, is granted the whole area. */
  method WholeArea(start: nat, pages: nat) returns (p: Process, b: Option<Block>)
    requires 0 < start && 0 < pages && start + PAGE_SIZE * pages + PAGE_SIZE <= WORD64
    ensures b == Some(Block(Range(start, PAGE_SIZE * pages), GenericKind)) && p.Valid() && p.avail == [] && p.inuse == [b.value]
  {
    var size := PAGE_SIZE * pages;
    p := new Process(start, start + size);
    ghost var was := p.L();
    WholeRequest(pages);
    WholeGrant(was, start, size);
    b := p.VmAlloc(0, size);
  }

  lemma WholeRequest(pages: nat)
    requires PAGE_SIZE * pages + PAGE_SIZE <= WORD64
    ensures var size := PAGE_SIZE * pages; RoundDown(0) == 0 && RequestEnd(0, size) == size && RequestSize(0, size) == size
  {
    RequestIsCovered(0, PAGE_SIZE * pages);
  }

  lemma WholeGrant(l: Layout, start: nat, size: nat)
    requires l == Layout([Block(Range(start, size), AvailKind)], [], [], [], [], [])
    ensures FirstFit(l.avail, 0, size, size) == 0
    ensures var b := Block(Range(start, size), GenericKind); Granted(l, 0, b, start + size) == l.(avail := [], inuse := [b])
  {
  }

  /** What the caller of `VmAlloc` gets out of the available range `t`. */
  predicate Answers(b: Block, t: Range, base0: nat, size0: nat)
    requires base0 < WORD64 && size0 < WORD64
  {
    && b.kind == GenericKind && b.r.size == RequestSize(base0, size0)
    && b.r.base == if RoundDown(base0) != 0 then RoundDown(base0) else t.base
  }

  /** The end of a request, rounded up to whole pages in words of 64 bits. */
  function RequestEnd(base: nat, size: nat): nat { RoundUp((base + size) % WORD64) }

  function RequestSize(base: nat, size: nat): nat { (RequestEnd(base, size) - RoundDown(base)) % WORD64 }

  function GrantEnd(b: Block, base0: nat, size0: nat): int {
    if RoundDown(base0) != 0 then RequestEnd(base0, size0) else End(b.r)
  }

  /** The range of the last block, an empty one if there is none. */
  function LastRange(s: seq<Block>): Range { if s == [] then Range(0, 0) else s[|s| - 1].r }

  function RoundDown(a: nat): nat { a / PAGE_SIZE * PAGE_SIZE }

  function RoundUp(a: nat): nat { (a + PAGE_SIZE - 1) % WORD64 / PAGE_SIZE * PAGE_SIZE }

  predicate Within(r: Range, base: int, size: int) { r.base <= base && base + size <= End(r) }

  predicate Fits(r: Range, base: nat, end: nat, size: nat) {
    if base != 0 then r.base <= base && End(r) >= end else r.size >= size
  }

  /** The first block that fits the request, or `|s|`. */
  function FirstFit(s: seq<Block>, base: nat, end: nat, size: nat): (i: nat)
    ensures i <= |s| && (i < |s| ==> Fits(s[i].r, base, end, size)) && forall j :: 0 <= j < i ==> !Fits(s[j].r, base, end, size)
  {
    if s == [] || Fits(s[0].r, base, end, size) then 0 else 1 + FirstFit(s[1..], base, end, size)
  }

  lemma LastInBounds(l: Layout, i: nat, lo: int, hi: int)
    requires l.Ok(lo, hi) && i < |l.avail|
    ensures l.avail[i].r.size > 0 && lo <= l.avail[i].r.base && End(l.avail[i].r) <= hi
  {
    var m := Bag(l.avail) + l.Busy();
    assert Spans(l.avail)[i] in multiset(Spans(l.avail));
    assert m[l.avail[i].r] == 1;
  }
}
