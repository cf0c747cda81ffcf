/** The page frame allocator: a buddy system per region whose free lists are threaded
    through one node per page. */
module PageFrames {
  import opened Common
  import opened Pow2
  import opened BuddyShape
  import opened BuddyNodes
  import Bits
  import opened PfnDb
  import opened MemTags

  const MAX_REGIONS: nat := 32

  datatype Region = Region(tags: bv32, totalPages: nat, availPages: nat, buddies: seq<Node>)

  class PageAllocator {
    const pfnStart: nat
    const nodes: array<Node>
    const regions: array<Region>
    var regionCount: nat

    // The abstract tiling and the free lists of each region.
    ghost var shapes: seq<Shape>
    ghost var lists: seq<seq<seq<nat>>>
    // The tilings that each region has gone through, from its creation on.
    ghost var history: seq<seq<Shape>>

    ghost predicate Sized()
      reads this
    {
      regions.Length == MAX_REGIONS && |shapes| == MAX_REGIONS && |lists| == MAX_REGIONS
    }

    ghost function M(): Mem
      reads nodes
    {
      Mem(pfnStart, nodes[..])
    }

    /** Region `r` as a value. */
    ghost function V(r: nat): View
      requires Sized() && r < MAX_REGIONS
      reads this, nodes, regions
    {
      View(M(), r, regions[r].buddies, lists[r], shapes[r], regions[r].availPages)
    }

    /** No other region's record has changed, nor the tag and size of region `r`. */
    twostate predicate Others(r: nat)
      requires old(Sized()) && r < MAX_REGIONS
      reads this, regions
    {
      && Sized()
      && regions[r].tags == old(regions[r].tags) && regions[r].totalPages == old(regions[r].totalPages)
      && forall i :: 0 <= i < MAX_REGIONS && i != r ==>
           regions[i] == old(regions[i]) && lists[i] == old(lists[i]) && shapes[i] == old(shapes[i])
    }

    /** Nothing has changed. */
    twostate predicate Same()
      requires old(Sized())
      reads this, nodes, regions
    {
      && Sized() && M() == old(M()) && history == old(history)
      && forall q: nat :: q < MAX_REGIONS ==>
           regions[q] == old(regions[q]) && lists[q] == old(lists[q]) && shapes[q] == old(shapes[q])
    }

    method SetNode(pfn: nat, n: Node)
      requires M().Has(pfn)
      modifies nodes
      ensures M() == old(M()).With(pfn, n)
    {
      nodes[pfn - pfnStart] := n;
      assert nodes[..] == old(nodes[..])[pfn - pfnStart := n];
    }

    method SetHead(r: nat, k: nat, w: Node)
      requires r < regions.Length && k < |regions[r].buddies|
      modifies regions
      ensures regions[r] == old(regions[r]).(buddies := old(regions[r]).buddies[k := w])
      ensures forall i :: 0 <= i < regions.Length && i != r ==> regions[i] == old(regions[i])
    {
      regions[r] := regions[r].(buddies := regions[r].buddies[k := w]);
    }

    method InsertNode(pfn: nat, r: nat, k: nat)
      requires Sized() && r < MAX_REGIONS && V(r).Fits(k) && M().Has(pfn)
      modifies nodes, regions, this`lists
      ensures Others(r) && V(r) == old(V(r)).Push(pfn, k)
    {
      var head := regions[r].buddies[k];
      SetNode(pfn, Relink(nodes[pfn - pfnStart], head));
      SetHead(r, k, head.(hasNext := true, next := pfn));
      lists := lists[r := lists[r][k := [pfn] + lists[r][k]]];
    }

    method UnlinkFirst(pfn: nat, r: nat, k: nat)
      requires Sized() && r < MAX_REGIONS && V(r).CanRemove(pfn, k) && IndexOf(lists[r][k], pfn) == 0
      modifies nodes, regions, this`lists
      ensures Others(r) && V(r) == old(V(r)).Remove(pfn, k)
    {
      var head := regions[r].buddies[k];
      SetHead(r, k, Relink(head, nodes[pfn - pfnStart]));
      SetNode(pfn, Relink(nodes[pfn - pfnStart], ZERO_NODE));
      lists := lists[r := lists[r][k := Removed(lists[r][k], 0)]];
    }

    method UnlinkAfter(prevPfn: nat, pfn: nat, r: nat, k: nat)
      requires Sized() && r < MAX_REGIONS && V(r).CanRemove(pfn, k)
      requires IndexOf(lists[r][k], pfn) > 0 && prevPfn == lists[r][k][IndexOf(lists[r][k], pfn) - 1]
      modifies nodes, this`lists
      ensures Others(r) && V(r) == old(V(r)).Remove(pfn, k)
    {
      assert prevPfn in lists[r][k];
      SetNode(prevPfn, Relink(nodes[prevPfn - pfnStart], nodes[pfn - pfnStart]));
      SetNode(pfn, Relink(nodes[pfn - pfnStart], ZERO_NODE));
      lists := lists[r := lists[r][k := Removed(lists[r][k], IndexOf(lists[r][k], pfn))]];
    }

    /** Walks list `k` to the node before `pfn`.  The walk always finds it: the panic at the
        end of the list is unreachable. */
    method FindPrevious(pfn: nat, r: nat, k: nat) returns (prevPfn: nat)
      requires Sized() && r < MAX_REGIONS && V(r).Fits(k)
      requires regions[r].buddies[k] == HeadWord(lists[r][k]) && Chain(M(), lists[r][k], k)
      requires pfn in lists[r][k] && lists[r][k][0] != pfn
      ensures IndexOf(lists[r][k], pfn) > 0 && prevPfn == lists[r][k][IndexOf(lists[r][k], pfn) - 1]
    {
      ghost var s := lists[r][k];
      var curPfn := regions[r].buddies[k].next;
      assert nodes[curPfn - pfnStart].hasNext;
      ghost var j := 0;
      var more := true;
      while more
        invariant 0 <= j < |s| && curPfn == s[j] && pfn !in s[..j + 1]
        invariant more == (j + 1 < |s|)
        decreases |s| - j
      {
        prevPfn := curPfn;
        curPfn := nodes[curPfn - pfnStart].next;
        j := j + 1;
        assert curPfn == s[j];
        if curPfn == pfn {
          assert j == IndexOf(s, pfn);
          return;
        }
        more := nodes[curPfn - pfnStart].hasNext;
      }
      assert false;
    }

    method RemoveNode(pfn: nat, r: nat, k: nat)
      requires Sized() && r < MAX_REGIONS && k < ORDER_COUNT
      requires ListsOk(M(), regions[r].buddies, lists[r])
      requires pfn in lists[r][k]
      modifies nodes, regions, this`lists
      ensures Others(r)
      ensures old(V(r)).CanRemove(pfn, k) && V(r) == old(V(r)).Remove(pfn, k)
    {
      assert Chain(M(), lists[r][k], k);
      if regions[r].buddies[k].next == pfn {
        UnlinkFirst(pfn, r, k);
      } else {
        var prevPfn := FindPrevious(pfn, r, k);
        UnlinkAfter(prevPfn, pfn, r, k);
      }
    }

    /** Splits the first free block of order `k`. */
    method SplitFirst(k: nat, r: nat)
      requires Sized() && r < MAX_REGIONS && V(r).CanSplit(k)
      modifies nodes, regions, this`lists, this`shapes
      ensures Others(r) && V(r) == old(V(r)).SplitFirst(k)
    {
      var pfn := PopFirst(k, r);
      ListHalves(pfn, pfn + Pow(k - 1), r, k - 1);
      shapes := shapes[r := shapes[r].Split(pfn)];
    }

    /** The first node leaves list `k`; its own link is left as it was. */
    method PopFirst(k: nat, r: nat) returns (pfn: nat)
      requires Sized() && r < MAX_REGIONS && V(r).Fits(k) && lists[r][k] != [] && M().Has(regions[r].buddies[k].next)
      modifies regions, this`lists
      ensures Others(r) && pfn == old(regions[r].buddies[k].next) && V(r) == old(V(r)).Pop(k)
    {
      var head := regions[r].buddies[k];
      pfn := head.next;
      SetHead(r, k, Relink(head, nodes[pfn - pfnStart]));
      lists := lists[r := lists[r][k := lists[r][k][1..]]];
    }

    /** Sets up the nodes of two free blocks of order `k` and lists them. */
    method ListHalves(pfn: nat, pfn2: nat, r: nat, k: nat)
      requires Sized() && r < MAX_REGIONS && V(r).Fits(k) && M().Has(pfn) && M().Has(pfn2)
      modifies nodes, regions, this`lists
      ensures Others(r)
      ensures var n := Node(k, r, false, false, true, 0);
        V(r) == old(V(r)).Write(pfn, n).Write(pfn2, n).Push(pfn, k).Push(pfn2, k)
    {
      SetNode(pfn, Node(k, r, false, false, true, 0));
      SetNode(pfn2, Node(k, r, false, false, true, 0));
      InsertNode(pfn, r, k);
      InsertNode(pfn2, r, k);
    }

    /** Splits a free block of order `k`, making one from larger blocks when there is none. */
    method BuddySplit(k: nat, r: nat) returns (ok: bool)
      requires Sized() && r < MAX_REGIONS && 0 < k < ORDER_COUNT
      requires Core(V(r)) && shapes[r].Coalesced()
      modifies nodes, regions, this`lists, this`shapes
      ensures Others(r) && Core(V(r)) && SameOutside(old(M()), M(), shapes[r].lo, shapes[r].hi)
      ensures SameBlocks(old(shapes[r]), shapes[r])
      ensures !ok ==> V(r) == old(V(r)) && forall j :: k <= j < ORDER_COUNT ==> lists[r][j] == []
      ensures ok ==> lists[r][k - 1] != [] && shapes[r].CoalescedBut(lists[r][k - 1][0])
      decreases ORDER_COUNT - k
    {
      if !regions[r].buddies[k].hasNext {
        if k == MAX_ORDER {
          return false;
        }
        var up := BuddySplit(k + 1, r);
        if !up {
          return false;
        }
      }
      SplitHere(k, r);
      return true;
    }

    method SplitHere(k: nat, r: nat)
      requires Sized() && r < MAX_REGIONS && 0 < k < ORDER_COUNT
      requires Core(V(r)) && lists[r][k] != [] && shapes[r].CoalescedBut(lists[r][k][0])
      modifies nodes, regions, this`lists, this`shapes
      ensures Others(r) && Core(V(r)) && SameOutside(old(M()), M(), shapes[r].lo, shapes[r].hi)
      ensures SameBlocks(old(shapes[r]), shapes[r])
      ensures lists[r][k - 1] != [] && shapes[r].CoalescedBut(lists[r][k - 1][0])
    {
      SplitStep(V(r), k);
      SplitFirst(k, r);
    }

    method RemovePair(pfn: nat, other: nat, r: nat, k: nat)
      requires Sized() && r < MAX_REGIONS && k < MAX_ORDER
      requires ListsOk(M(), regions[r].buddies, lists[r]) && V(r).CanMerge(pfn, other, k)
      modifies nodes, regions, this`lists
      ensures Others(r) && V(r) == old(V(r)).RemoveTwo(pfn, other, k)
    {
      RemoveOk(V(r), pfn, k);
      RemoveNode(pfn, r, k);
      RemoveNode(other, r, k);
    }

    /** Rewrites the nodes of two unlisted buddies and lists their union at order `k`. */
    method JoinNodes(pfn: nat, other: nat, r: nat, k: nat)
      requires Sized() && r < MAX_REGIONS && V(r).Fits(k) && M().Has(pfn) && M().Has(other) && pfn != other
      requires !M().At(pfn).alloc && !M().At(other).alloc
      requires (if pfn < other then pfn else other) in shapes[r].order
      modifies nodes, regions, this`lists, this`shapes
      ensures Others(r)
      ensures var h, n := if pfn < other then pfn else other, Node(k, r, false, false, true, 0);
        V(r) == old(V(r)).Write(pfn, n).Write(other, n).Push(h, k).(shape := old(shapes[r]).Merge(h))
    {
      var higherPfn := if pfn < other then pfn else other;
      SetNode(pfn, nodes[pfn - pfnStart].(hasNext := false, next := 0, order := k, region := r, avail := true));
      SetNode(other, nodes[other - pfnStart].(hasNext := false, next := 0, order := k, region := r, avail := true));
      InsertNode(higherPfn, r, k);
      shapes := shapes[r := shapes[r].Merge(higherPfn)];
    }

    /** Takes the free buddies `pfn` and `other` off list `k` and puts their union on the next. */
    method CombinePair(pfn: nat, other: nat, r: nat, k: nat)
      requires Sized() && r < MAX_REGIONS && k < MAX_ORDER
      requires ListsOk(M(), regions[r].buddies, lists[r]) && V(r).CanMerge(pfn, other, k)
      requires !M().At(pfn).alloc && !M().At(other).alloc
      modifies nodes, regions, this`lists, this`shapes
      ensures Others(r) && V(r) == old(V(r)).MergePair(pfn, other, k)
    {
      RemoveTwoOk(V(r), pfn, other, k);
      RemovePair(pfn, other, r, k);
      assert Relink(M().At(pfn), ZERO_NODE) == old(Relink(M().At(pfn), ZERO_NODE));
      assert Relink(M().At(other), ZERO_NODE) == old(Relink(M().At(other), ZERO_NODE));
      JoinNodes(pfn, other, r, k + 1);
    }

    /** The buddy of a block, and the block the two would form. */
    static method BuddyOf(pfn: nat, order: nat) returns (higherPfn: nat, other: nat)
      requires Aligned(pfn, order)
      ensures if Aligned(pfn, order + 1) then higherPfn == pfn && other == pfn + Pow(order)
              else pfn >= Pow(order) && higherPfn == other == pfn - Pow(order)
    {
      AlignedIsMod(pfn, order + 1);
      if pfn % Pow(order + 1) == 0 {
        return pfn, pfn + Pow(order);
      } else {
        LowerHalf(pfn, order);
        return pfn - Pow(order), pfn - Pow(order);
      }
    }

    /** No node outside region `r` claims to belong to it. */
    ghost predicate Exclusive(r: nat)
      requires Sized() && r < MAX_REGIONS
      reads this, nodes
    {
      OutsiderFree(M(), r, shapes[r])
    }

    /** The test on the other node: in range, available, same region, not allocated, same order. */
    method FreeInMetadata(other: nat, region: nat, order: nat) returns (found: bool)
      ensures found == BuddyFound(M(), other, region, order)
    {
      if !(pfnStart <= other < pfnStart + nodes.Length) {
        return false;
      }
      var otherNode := nodes[other - pfnStart];
      return !(!otherNode.avail || otherNode.region != region || otherNode.alloc || order != otherNode.order);
    }

    /** One step of combining: either the region is coalesced already or `pfn` joins its buddy. */
    method CombineOnce(pfn: nat, ghost r: nat) returns (joined: bool, higherPfn: nat)
      requires Sized() && r < MAX_REGIONS
      requires Core(V(r)) && pfn in shapes[r].free && shapes[r].CoalescedBut(pfn) && Exclusive(r)
      modifies nodes, regions, this`lists, this`shapes
      ensures Others(r)
      ensures !joined ==> V(r) == old(V(r)) && shapes[r].Coalesced()
      ensures joined ==> Joined(old(V(r)), V(r), pfn, higherPfn)
    {
      FreeHead(V(r), pfn);
      var node := nodes[pfn - pfnStart];
      if node.order == MAX_ORDER {
        NoBuddyMeansCoalesced(shapes[r], pfn);
        return false, pfn;
      }
      joined, higherPfn := CombineBelow(pfn, node.region, node.order);
    }

    method CombineBelow(pfn: nat, region: nat, order: nat) returns (joined: bool, higherPfn: nat)
      requires Sized() && region < MAX_REGIONS && Core(V(region)) && Exclusive(region)
      requires pfn in shapes[region].free && shapes[region].CoalescedBut(pfn)
      requires shapes[region].order[pfn] == order < MAX_ORDER && Aligned(pfn, order)
      modifies nodes, regions, this`lists, this`shapes
      ensures Others(region)
      ensures !joined ==> V(region) == old(V(region)) && shapes[region].Coalesced()
      ensures joined ==> Joined(old(V(region)), V(region), pfn, higherPfn)
    {
      var other;
      higherPfn, other := BuddyOf(pfn, order);
      BuddyTest(V(region), pfn, other, higherPfn, order);
      joined := FreeInMetadata(other, region, order);
      if joined {
        CombinePair(pfn, other, region, order);
      }
    }

    method BuddyCombine(pfn: nat, ghost r: nat)
      requires Sized() && r < MAX_REGIONS
      requires Core(V(r)) && pfn in shapes[r].free && shapes[r].CoalescedBut(pfn) && Exclusive(r)
      modifies nodes, regions, this`lists, this`shapes
      ensures Others(r) && Core(V(r)) && SameOutside(old(M()), M(), shapes[r].lo, shapes[r].hi)
      ensures SameBlocks(old(shapes[r]), shapes[r]) && shapes[r].Coalesced()
      decreases MAX_ORDER - shapes[r].order[pfn]
    {
      FreeHead(V(r), pfn);
      var joined, higherPfn := CombineOnce(pfn, r);
      if joined {
        BuddyCombine(higherPfn, r);
      }
    }

    // ------------------------------------------------------------ whole allocator

    /** Region `r` is well formed, holds no two free buddies, and does not manage page 0. */
    ghost predicate RegionOk(r: nat)
      requires Sized() && r < MAX_REGIONS
      reads this, nodes, regions
    {
      Core(V(r)) && shapes[r].Coalesced() && shapes[r].lo > 0
    }

    ghost predicate Below(q: nat, r: nat)
      requires Sized() && q < MAX_REGIONS && r < MAX_REGIONS
      reads this
    {
      shapes[q].hi <= shapes[r].lo
    }

    ghost predicate Owns(r: nat, p: nat)
      requires Sized() && r < MAX_REGIONS
      reads this
    {
      shapes[r].lo <= p < shapes[r].hi
    }

    ghost predicate Managed(p: nat)
      requires Sized() && regionCount <= MAX_REGIONS
      reads this
    {
      exists r: nat :: r < regionCount && Owns(r, p)
    }

    ghost predicate WellFormed()
      reads this, nodes, regions
    {
      && Sized() && regionCount <= MAX_REGIONS
      && (forall r: nat {:trigger RegionOk(r)} :: r < regionCount ==> RegionOk(r))
      && (forall q: nat, r: nat {:trigger Below(q, r)} :: q < r < regionCount ==> Below(q, r))
      && (forall p: nat {:trigger Managed(p)} :: M().Has(p) && !Managed(p) ==> !M().At(p).avail)
    }

    /** The history of every region leads from its first tiling to the present one. */
    ghost predicate Traced()
      requires Sized() && regionCount <= MAX_REGIONS
      reads this
    {
      && |history| == MAX_REGIONS
      && (forall r: nat {:trigger history[r]} :: r < regionCount ==> IsHistory(history[r], shapes[r]))
    }

    ghost predicate Valid()
      reads this, nodes, regions
    {
      WellFormed() && Traced()
    }

    lemma ExclusiveRegion(r: nat)
      requires WellFormed() && r < regionCount
      ensures Exclusive(r)
    {
      forall p: nat | M().Has(p) && !(shapes[r].lo <= p < shapes[r].hi)
        ensures !(M().At(p).avail && M().At(p).region == r)
      {
        if Managed(p) {
          var q: nat :| q < regionCount && Owns(q, p);
          assert RegionOk(q);
          assert NodeOk(V(q).mem.At(p), p, q, shapes[q]);
        }
      }
    }

    /** A step confined to region `r` leaves every other region as it was. */
    twostate lemma OthersStayOk(r: nat)
      requires old(WellFormed()) && r < old(regionCount) && regionCount == old(regionCount) && Others(r)
      requires RegionOk(r) && shapes[r].lo == old(shapes[r]).lo && shapes[r].hi == old(shapes[r]).hi
      requires SameOutside(old(M()), M(), shapes[r].lo, shapes[r].hi)
      ensures WellFormed()
    {
      forall q: nat | q < regionCount ensures RegionOk(q) {
        if q != r {
          assert old(RegionOk(q));
          assert q < r ==> old(Below(q, r));
          assert r < q ==> old(Below(r, q));
          FrameCore(old(V(q)), M());
        }
      }
      forall q: nat, t: nat | q < t < regionCount ensures Below(q, t) { assert old(Below(q, t)); }
      forall p: nat | M().Has(p) && !Managed(p) ensures !M().At(p).avail {
        if old(Managed(p)) {
          var q: nat :| q < regionCount && old(Owns(q, p));
          assert Owns(q, p);
        }
        assert !Owns(r, p);
      }
    }

    /** The history of region `r` has grown by its present tiling, and no other history has changed. */
    twostate predicate Follows(r: nat)
      requires r < MAX_REGIONS && |old(history)| == MAX_REGIONS && |shapes| == MAX_REGIONS
      reads this
    {
      history == old(history)[r := old(history)[r] + [shapes[r]]]
    }

    twostate lemma StepIsTraced(r: nat)
      requires old(Valid()) && r < old(regionCount) && regionCount == old(regionCount) && Others(r) && Follows(r)
      requires RegionOk(r) && Moves(old(shapes[r]), shapes[r])
      requires shapes[r].lo == old(shapes[r]).lo && shapes[r].hi == old(shapes[r]).hi
      requires SameOutside(old(M()), M(), shapes[r].lo, shapes[r].hi)
      ensures Valid()
    {
      OthersStayOk(r);
      HistoryGrows(old(history[r]), old(shapes[r]), shapes[r]);
    }

    /** The smallest order whose blocks hold `count` pages. */
    static method CalcPallocOrder(count: nat) returns (order: nat)
      requires count <= 0x8000
      ensures order <= MAX_ORDER && count <= Pow(order) && (order == 0 || Pow(order - 1) < count)
    {
      var z := Bits.Clz32(count);
      var ones := Bits.PopCount32(count);
      if count > 0 {
        OrderOfCount(count, 31 - z, ones);
      }
      var o: int := 32 - 1;
      o := o - z;
      if ones > 1 {
        o := o + 1;
      }
      if o < 0 {
        o := 0;
      } else if o > MAX_ORDER {
        assert false;
      }
      order := o;
    }

    /** Hands out the first free block of order `k`. */
    method TakeFirst(k: nat, r: nat) returns (pfn: nat)
      requires Sized() && r < MAX_REGIONS && V(r).Fits(k) && lists[r][k] != []
      requires M().Has(regions[r].buddies[k].next) && regions[r].availPages >= Pow(k)
      modifies nodes, regions, this`lists, this`shapes
      ensures Others(r) && pfn == old(regions[r].buddies[k].next) && V(r) == old(V(r)).TakeFirst(k)
    {
      var head := regions[r].buddies[k];
      pfn := head.next;
      SetHead(r, k, Relink(head, nodes[pfn - pfnStart]));
      SetNode(pfn, nodes[pfn - pfnStart].(alloc := true, hasNext := false, next := 0));
      regions[r] := regions[r].(availPages := regions[r].availPages - Pow(k));
      lists := lists[r := lists[r][k := lists[r][k][1..]]];
      shapes := shapes[r := shapes[r].Take(pfn)];
    }

    /** Puts a block on list `k` by splitting if the list is empty. */
    method MakeBlock(k: nat, r: nat) returns (ok: bool)
      requires Sized() && r < MAX_REGIONS && k < MAX_ORDER && Core(V(r)) && shapes[r].Coalesced()
      modifies nodes, regions, this`lists, this`shapes
      ensures Others(r) && Core(V(r)) && SameOutside(old(M()), M(), shapes[r].lo, shapes[r].hi)
      ensures SameBlocks(old(shapes[r]), shapes[r])
      ensures !ok ==> V(r) == old(V(r)) && NoRun(shapes[r].FreePages(), k)
      ensures ok ==> lists[r][k] != [] && shapes[r].CoalescedBut(lists[r][k][0])
    {
      if regions[r].buddies[k].hasNext {
        return true;
      }
      ok := BuddySplit(k + 1, r);
      if !ok {
        NoBlockNoRun(V(r), k);
      }
    }

    /** Hands out a block of order `k`, or 0 if no aligned run of that order is free. */
    method AllocateBlock(k: nat, r: nat) returns (pfn: nat)
      requires Sized() && r < MAX_REGIONS && k < MAX_ORDER && RegionOk(r)
      modifies nodes, regions, this`lists, this`shapes
      ensures Others(r) && RegionOk(r) && SameOutside(old(M()), M(), shapes[r].lo, shapes[r].hi)
      ensures shapes[r].lo == old(shapes[r]).lo && shapes[r].hi == old(shapes[r]).hi
      ensures pfn == 0 ==> V(r) == old(V(r))
      ensures pfn == 0 <==> NoRun(old(shapes[r]).FreePages(), k)
      ensures pfn != 0 ==> Granted(old(shapes[r]), shapes[r], pfn, k)
    {
      var ok := MakeBlock(k, r);
      if !ok {
        return 0;
      }
      TakeStep(old(shapes[r]), V(r), k);
      pfn := TakeFirst(k, r);
    }

    /** The same within a valid allocator, whose other regions are not touched. */
    method AllocateIn(k: nat, r: nat) returns (pfn: nat)
      requires Valid() && r < regionCount && k < MAX_ORDER
      modifies nodes, regions, this`lists, this`shapes, this`history
      ensures Valid() && Others(r)
      ensures pfn == 0 ==> Same()
      ensures pfn == 0 <==> NoRun(old(shapes[r]).FreePages(), k)
      ensures pfn != 0 ==> Granted(old(shapes[r]), shapes[r], pfn, k) && Follows(r)
    {
      assert RegionOk(r);
      pfn := AllocateBlock(k, r);
      if pfn == 0 {
        OthersStayOk(r);
      } else {
        history := history[r := history[r] + [shapes[r]]];
        StepIsTraced(r);
      }
    }

    /** Allocates a block of at least `count` pages, or returns 0.  It fails only when the
        order is the maximal one or no aligned run of free pages of that order is left. */
    method PallocRegion(count: nat, r: nat) returns (pfn: nat, ghost k: nat)
      requires Valid() && r < regionCount && count <= 0x8000
      modifies nodes, regions, this`lists, this`shapes, this`history
      ensures Valid() && Others(r)
      ensures count <= Pow(k) && (k == 0 || Pow(k - 1) < count)
      ensures pfn == 0 ==> Same()
      ensures pfn != 0 <==> Serves(old(shapes[r]), k)
      ensures pfn != 0 ==> Granted(old(shapes[r]), shapes[r], pfn, k) && Follows(r)
    {
      var order := CalcPallocOrder(count);
      k := order;
      assert RegionOk(r);
      if regions[r].availPages < Pow(order) {
        TooFewPages(shapes[r].FreePages(), order);
        return 0, k;
      }
      if order == MAX_ORDER {
        return 0, k;
      }
      pfn := AllocateIn(order, r);
    }

    /** Puts an allocated block back at the front of its list.  The head word is tested as a
        whole, which is right because it is zero exactly when the list is empty. */
    method GiveBlock(pfn: nat, r: nat, k: nat)
      requires Sized() && r < MAX_REGIONS && V(r).Fits(k) && M().Has(pfn)
      requires regions[r].buddies[k] == HeadWord(lists[r][k])
      modifies nodes, regions, this`lists, this`shapes
      ensures Others(r) && V(r) == old(V(r)).GiveBack(pfn, k)
    {
      var head := regions[r].buddies[k];
      var node := nodes[pfn - pfnStart].(alloc := false);
      if head != ZERO_NODE {
        node := node.(next := head.next, hasNext := true);
      } else {
        node := node.(next := 0, hasNext := false);
      }
      SetNode(pfn, node);
      SetHead(r, k, head.(hasNext := true, next := pfn));
      regions[r] := regions[r].(availPages := regions[r].availPages + Pow(k));
      lists := lists[r := lists[r][k := [pfn] + lists[r][k]]];
      shapes := shapes[r := shapes[r].Give(pfn)];
      assert M() == old(V(r)).GiveBack(pfn, k).mem;
    }

    /** Gives a block back and merges it with its free buddies as far as they go. */
    method FreeBlock(pfn: nat, ghost r: nat) returns (count: nat)
      requires Sized() && r < MAX_REGIONS && RegionOk(r) && Exclusive(r) && pfn in Used(shapes[r])
      modifies nodes, regions, this`lists, this`shapes
      ensures Others(r) && RegionOk(r) && SameOutside(old(M()), M(), shapes[r].lo, shapes[r].hi)
      ensures count == Pow(old(Used(shapes[r]))[pfn])
      ensures Returned(old(shapes[r]), shapes[r], pfn)
    {
      UsedHead(V(r), pfn);
      var node := nodes[pfn - pfnStart];
      var region, order := node.region, node.order;
      GiveStep(V(r), pfn, order);
      GiveBlock(pfn, region, order);
      OutsidersKept(old(M()), M(), r, shapes[r]);
      BuddyCombine(pfn, r);
      count := Pow(order);
    }

    /** Frees a block: it is free again and merged, and nothing else changes. */
    method Pfree(pfn: nat, ghost r: nat) returns (count: nat)
      requires Valid() && r < regionCount && pfn in Used(shapes[r])
      modifies nodes, regions, this`lists, this`shapes, this`history
      ensures Valid() && Others(r)
      ensures count == Pow(old(Used(shapes[r]))[pfn])
      ensures Returned(old(shapes[r]), shapes[r], pfn) && Follows(r)
    {
      ExclusiveRegion(r);
      assert RegionOk(r);
      count := FreeBlock(pfn, r);
      history := history[r := history[r] + [shapes[r]]];
      StepIsTraced(r);
    }

    // ------------------------------------------------------------ creation

    ghost predicate Blank(r: nat)
      requires Sized() && r < MAX_REGIONS
      reads this, regions
    {
      && regions[r].totalPages == 0 && regions[r].availPages == 0
      && regions[r].buddies == seq(ORDER_COUNT, i => ZERO_NODE) && lists[r] == seq(ORDER_COUNT, i => [])
    }

    /** The largest order whose block can start at `cur` and end by `limit`. */
    static method PickOrder(cur: nat, limit: nat) returns (k: nat)
      requires cur < limit
      ensures k <= MAX_ORDER && Aligned(cur, k) && cur + Pow(k) <= limit
      ensures k < MAX_ORDER ==> !(Aligned(cur, k + 1) && cur + Pow(k + 1) <= limit)
    {
      k := MAX_ORDER;
      while true
        invariant k <= MAX_ORDER
        invariant k < MAX_ORDER ==> !(Aligned(cur, k + 1) && cur + Pow(k + 1) <= limit)
        decreases k
      {
        AlignedIsMod(cur, k);
        if cur % Pow(k) == 0 && cur + Pow(k) <= limit {
          return;
        }
        assert k != 0;
        k := k - 1;
      }
    }

    /** Lists a new free block of order `k` at the end of region `r`. */
    method AppendBlock(cur: nat, k: nat, r: nat)
      requires Sized() && r < MAX_REGIONS && V(r).Fits(k) && M().Has(cur) && cur == shapes[r].hi
      modifies nodes, regions, this`lists, this`shapes
      ensures Others(r) && V(r) == old(V(r)).Append(k)
    {
      SetNode(cur, Node(k, r, false, false, true, 0));
      InsertNode(cur, r, k);
      shapes := shapes[r := Extend(shapes[r], k)];
    }

    method TileRegion(startPfn: nat, limit: nat, r: nat)
      requires Sized() && r < MAX_REGIONS && startPfn <= limit && Growing(V(r), limit)
      requires shapes[r].lo == shapes[r].hi == startPfn
      modifies nodes, regions, this`lists, this`shapes
      ensures Others(r) && Growing(V(r), limit) && V(r).avail == old(V(r).avail)
      ensures shapes[r].lo == startPfn && shapes[r].hi == limit
      ensures SameOutside(old(M()), M(), startPfn, limit)
    {
      var cur := startPfn;
      while cur < limit
        invariant Others(r) && Growing(V(r), limit) && V(r).avail == old(V(r).avail)
        invariant shapes[r].lo == startPfn && shapes[r].hi == cur <= limit
        invariant SameOutside(old(M()), M(), startPfn, limit)
      {
        var order := PickOrder(cur, limit);
        AppendGrows(V(r), order, limit);
        AppendBlock(cur, order, r);
        cur := cur + Pow(order);
      }
    }

    /** Tiles `startPfn .. startPfn + count` with the largest aligned blocks, all free. */
    method InitRegion(startPfn: nat, count: nat, r: nat, tags: bv32)
      requires Sized() && r < MAX_REGIONS && Blank(r)
      requires pfnStart <= startPfn && startPfn + count <= pfnStart + nodes.Length && startPfn > 0
      requires Untouched(M(), startPfn, startPfn + count)
      modifies nodes, regions, this`lists, this`shapes
      ensures Sized() && RegionOk(r) && SameOutside(old(M()), M(), startPfn, startPfn + count)
      ensures shapes[r].lo == startPfn && shapes[r].hi == startPfn + count && Initial(shapes[r])
      ensures regions[r].tags == tags && regions[r].totalPages == count
      ensures forall i :: 0 <= i < MAX_REGIONS && i != r ==>
        regions[i] == old(regions[i]) && lists[i] == old(lists[i]) && shapes[i] == old(shapes[i])
    {
      regions[r] := regions[r].(tags := tags, totalPages := regions[r].totalPages + count,
                                availPages := regions[r].availPages + count);
      shapes := shapes[r := Shape(startPfn, startPfn, map[], {})];
      NewRegionGrows(V(r), startPfn + count);
      TileRegion(startPfn, startPfn + count, r);
      GrownCore(V(r));
    }

    ghost predicate BlankTail()
      requires Sized()
      reads this, regions
    {
      forall i {:trigger Blank(i)} :: regionCount <= i < MAX_REGIONS ==> Blank(i)
    }

    constructor (pfnStart: nat, entryCount: nat)
      ensures this.pfnStart == pfnStart && nodes.Length == entryCount && fresh(nodes) && fresh(regions)
      ensures Valid() && regionCount == 0 && BlankTail() && Untouched(M(), pfnStart, pfnStart + entryCount)
    {
      this.pfnStart := pfnStart;
      nodes := new Node[entryCount](i => ZERO_NODE);
      regions := new Region[MAX_REGIONS](i => Region(0, 0, 0, seq(ORDER_COUNT, k => ZERO_NODE)));
      regionCount := 0;
      shapes := seq(MAX_REGIONS, i => Shape(0, 0, map[], {}));
      lists := seq(MAX_REGIONS, i => seq(ORDER_COUNT, k => []));
      history := seq(MAX_REGIONS, i => []);
    }

    /** Initializes the next region above all existing ones. */
    method AddRegion(startPfn: nat, count: nat, tags: bv32)
      requires Valid() && BlankTail() && regionCount < MAX_REGIONS
      requires pfnStart <= startPfn && startPfn + count <= pfnStart + nodes.Length && startPfn > 0
      requires forall q: nat :: q < regionCount ==> shapes[q].hi <= startPfn
      requires Untouched(M(), startPfn, pfnStart + nodes.Length)
      modifies nodes, regions, this`lists, this`shapes, this`regionCount, this`history
      ensures Valid() && BlankTail() && regionCount == old(regionCount) + 1
      ensures forall q: nat :: q < old(regionCount) ==> shapes[q] == old(shapes[q]) && regions[q] == old(regions[q])
      ensures var s := shapes[regionCount - 1]; s.lo == startPfn && s.hi == startPfn + count && Used(s) == map[]
      ensures regions[regionCount - 1].tags == tags
      ensures Untouched(M(), startPfn + count, pfnStart + nodes.Length)
    {
      assert Blank(regionCount);
      InitRegion(startPfn, count, regionCount, tags);
      history := history[regionCount := [shapes[regionCount]]];
      regionCount := regionCount + 1;
      ghost var r := regionCount - 1;
      forall i: nat | regionCount <= i < MAX_REGIONS ensures Blank(i) { assert old(Blank(i)); }
      forall q: nat | q < regionCount ensures RegionOk(q) {
        if q < r {
          assert old(RegionOk(q));
          FrameCore(old(V(q)), M());
        }
      }
      forall q: nat, t: nat | q < t < regionCount ensures Below(q, t) {
        assert t < r ==> old(Below(q, t));
      }
      forall p: nat | M().Has(p) && !Managed(p) ensures !M().At(p).avail {
        if old(Managed(p)) {
          var q: nat :| q < r && old(Owns(q, p));
          assert Owns(q, p);
        }
        assert !Owns(r, p);
      }
    }

    /** The regions so far manage exactly the recorded pages among the first `n`, each with
        the tags of its region. */
    ghost predicate Scanned(db: seq<PfnEntry>, n: nat)
      requires Sized() && regionCount <= MAX_REGIONS
      reads this, regions
    {
      && (forall q: nat {:trigger shapes[q]} :: q < regionCount ==>
            pfnStart <= shapes[q].lo && shapes[q].hi <= pfnStart + n && Used(shapes[q]) == map[])
      && (forall p: nat {:trigger Managed(p)} :: pfnStart <= p < pfnStart + n ==> (Managed(p) <==> Recorded(db, p - pfnStart)))
      && (forall q: nat, p: nat {:trigger Owns(q, p)} ::
            q < regionCount && pfnStart <= p < pfnStart + |db| && Owns(q, p) ==> db[p - pfnStart].tags == regions[q].tags)
    }

    /** Ends the current region: pages `from .. to` become managed. */
    method CloseRegion(db: seq<PfnEntry>, from: nat, to: nat, tags: bv32)
      requires Valid() && BlankTail() && regionCount < MAX_REGIONS && nodes.Length == |db|
      requires from <= to <= |db| && pfnStart + from > 0 && Scanned(db, from)
      requires forall i: nat :: from <= i < to ==> Recorded(db, i) && db[i].tags == tags
      requires Untouched(M(), pfnStart + from, pfnStart + |db|)
      modifies nodes, regions, this`lists, this`shapes, this`regionCount, this`history
      ensures Valid() && BlankTail() && regionCount == old(regionCount) + 1 && Scanned(db, to)
      ensures Untouched(M(), pfnStart + to, pfnStart + |db|)
    {
      AddRegion(pfnStart + from, to - from, tags);
      ghost var r := regionCount - 1;
      forall p: nat | pfnStart <= p < pfnStart + to ensures Managed(p) <==> Recorded(db, p - pfnStart) {
        if p < pfnStart + from {
          if old(Managed(p)) {
            var q: nat :| q < r && old(Owns(q, p));
            assert Owns(q, p);
          }
          if Managed(p) {
            var q: nat :| q < regionCount && Owns(q, p);
            assert old(Owns(q, p));
          }
        } else {
          assert Owns(r, p);
        }
      }
      forall q: nat, p: nat | q < regionCount && pfnStart <= p < pfnStart + |db| && Owns(q, p)
        ensures db[p - pfnStart].tags == regions[q].tags
      {
        if q < r { assert old(Owns(q, p)); }
      }
    }

    /** Builds one region per maximal run of free pages with equal tags, and manages no page
        that is not free.  The page at which the tags change is managed by no region. */
    method InitPalloc(db: seq<PfnEntry>)
      requires Valid() && BlankTail() && regionCount == 0 && nodes.Length == |db|
      requires Untouched(M(), pfnStart, pfnStart + |db|)
      requires pfnStart == 0 && |db| > 0 ==> !db[0].Free()
      requires Starts(db, |db|) <= MAX_REGIONS
      modifies nodes, regions, this`lists, this`shapes, this`regionCount, this`history
      ensures Valid() && regionCount == Starts(db, |db|) && Scanned(db, |db|)
      ensures forall p: nat {:trigger Managed(p)} ::
        Managed(p) <==> pfnStart <= p < pfnStart + |db| && db[p - pfnStart].Free() && Streak(db, p - pfnStart) % 2 == 0
      ensures (forall i: nat :: i < |db| && db[i].Free() ==> Managed(pfnStart + i)) <==> (forall i: nat :: !TagChange(db, i))
    {
      ScanPages(db);
      ManagedPages(db);
    }

    /** The scan has seen `i` pages; if it is recording, then the pages from `curStart` on. */
    ghost predicate Scanning(db: seq<PfnEntry>, i: nat, recording: bool, curStart: nat, curTag: bv32)
      reads this, nodes, regions
    {
      && Valid() && BlankTail() && nodes.Length == |db| && curStart <= i <= |db|
      && recording == (i > 0 && Recorded(db, i - 1))
      && regionCount + (if recording then 1 else 0) == Starts(db, i)
      && (var done := if recording then curStart else i; Scanned(db, done) && Untouched(M(), pfnStart + done, pfnStart + |db|))
      && (recording ==> curStart < i && pfnStart + curStart > 0)
      && (recording ==> forall j: nat :: curStart <= j < i ==> Recorded(db, j) && db[j].tags == curTag)
    }

    method ScanPage(db: seq<PfnEntry>, i: nat, recording: bool, curStart: nat, curTag: bv32)
      returns (recording': bool, curStart': nat, curTag': bv32)
      requires Scanning(db, i, recording, curStart, curTag) && i < |db|
      requires Starts(db, |db|) <= MAX_REGIONS && (pfnStart == 0 ==> !db[0].Free())
      modifies nodes, regions, this`lists, this`shapes, this`regionCount, this`history
      ensures Scanning(db, i + 1, recording', curStart', curTag')
    {
      StartsMonotone(db, i, |db|);
      recording', curStart', curTag' := recording, curStart, curTag;
      if recording && (!db[i].usable || db[i].inuse || curTag != db[i].tags) {
        recording' := false;
        CloseRegion(db, curStart, i, curTag);
        SkipPage(db, i);
      } else if !recording && db[i].usable && !db[i].inuse {
        curStart' := i;
        curTag' := db[i].tags;
        recording' := true;
      } else if !recording {
        SkipPage(db, i);
      }
    }

    /** The scan over the database. */
    method ScanPages(db: seq<PfnEntry>)
      requires Valid() && BlankTail() && regionCount == 0 && nodes.Length == |db|
      requires Untouched(M(), pfnStart, pfnStart + |db|)
      requires pfnStart == 0 && |db| > 0 ==> !db[0].Free()
      requires Starts(db, |db|) <= MAX_REGIONS
      modifies nodes, regions, this`lists, this`shapes, this`regionCount, this`history
      ensures Valid() && regionCount == Starts(db, |db|) && Scanned(db, |db|)
    {
      var curTag, recording, curStart: nat := 0, false, 0;
      var i: nat := 0;
      while i < |db|
        invariant Scanning(db, i, recording, curStart, curTag)
        decreases |db| - i
      {
        recording, curStart, curTag := ScanPage(db, i, recording, curStart, curTag);
        i := i + 1;
      }
      if recording {
        CloseRegion(db, curStart, |db|, curTag);
      }
    }

    /** What the scan leaves managed, in terms of the database alone. */
    lemma ManagedPages(db: seq<PfnEntry>)
      requires Sized() && regionCount <= MAX_REGIONS && Scanned(db, |db|)
      ensures forall p: nat {:trigger Managed(p)} ::
        Managed(p) <==> pfnStart <= p < pfnStart + |db| && db[p - pfnStart].Free() && Streak(db, p - pfnStart) % 2 == 0
      ensures (forall i: nat :: i < |db| && db[i].Free() ==> Managed(pfnStart + i)) <==> (forall i: nat :: !TagChange(db, i))
    {
      forall p: nat
        ensures Managed(p) <==> pfnStart <= p < pfnStart + |db| && db[p - pfnStart].Free() && Streak(db, p - pfnStart) % 2 == 0
      {
        if pfnStart <= p < pfnStart + |db| { LostAtOddStreak(db, p - pfnStart); }
      }
      forall i: nat | i < |db| ensures Managed(pfnStart + i) <==> Recorded(db, i) {}
      NothingLost(db);
    }

    lemma SkipPage(db: seq<PfnEntry>, i: nat)
      requires Sized() && regionCount <= MAX_REGIONS && Scanned(db, i) && !Recorded(db, i)
      ensures Scanned(db, i + 1)
    {
      forall p: nat | pfnStart <= p < pfnStart + i + 1 ensures Managed(p) <==> Recorded(db, p - pfnStart) {
        assert p == pfnStart + i ==> !Managed(p);
      }
    }

    /** The regions in turn, from the first on, until one with matching tags can serve the request. */
    method TryRegions(count: nat, mask: bv32, match_: Match) returns (pfn: nat, ghost r: nat, ghost k: nat)
      requires Valid() && count <= 0x8000
      modifies nodes, regions, this`lists, this`shapes, this`history
      ensures Valid() && count <= Pow(k) && (k == 0 || Pow(k - 1) < count) && r <= regionCount
      ensures forall q: nat :: q < r && TagsMatch(old(regions[q].tags), mask, match_) ==> !Serves(old(shapes[q]), k)
      ensures pfn == 0 ==> r == regionCount && Same()
      ensures pfn != 0 ==> r < regionCount && TagsMatch(old(regions[r].tags), mask, match_) && Others(r)
      ensures pfn != 0 ==> Serves(old(shapes[r]), k) && Granted(old(shapes[r]), shapes[r], pfn, k) && Follows(r)
    {
      var order := CalcPallocOrder(count);
      k := order;
      var i := 0;
      while i < regionCount
        invariant 0 <= i <= regionCount && Valid()
        invariant Same()
        invariant forall q: nat :: q < i && TagsMatch(old(regions[q].tags), mask, match_) ==> !Serves(old(shapes[q]), k)
      {
        if TagsMatch(regions[i].tags, mask, match_) {
          ghost var k';
          pfn, k' := PallocRegion(count, i);
          SameOrder(count, k, k');
          if pfn != 0 {
            r := i;
            return;
          }
        }
        i := i + 1;
      }
      pfn, r := 0, regionCount;
    }

    /** Allocates from the first region that can serve the request.  The result is 0 if and only if
        no region can, since no region manages page 0. */
    method PallocTag(count: nat, mask: bv32, match_: Match) returns (pfn: nat, ghost r: nat, ghost k: nat)
      requires Valid() && count <= 0x8000
      modifies nodes, regions, this`lists, this`shapes, this`history
      ensures Valid() && count <= Pow(k) && (k == 0 || Pow(k - 1) < count)
      ensures r <= regionCount
      ensures forall q: nat :: q < r && TagsMatch(old(regions[q].tags), mask, match_) ==> !Serves(old(shapes[q]), k)
      ensures pfn == 0 ==> r == regionCount && Same()
      ensures pfn != 0 ==> r < regionCount && TagsMatch(old(regions[r].tags), mask, match_) && Others(r)
      ensures pfn != 0 ==> Serves(old(shapes[r]), k)
      ensures pfn != 0 ==> Granted(old(shapes[r]), shapes[r], pfn, k) && Follows(r)
      ensures pfn != 0 && match_ == MatchSetAll ==> HasBits(old(regions[r].tags), mask)
      ensures match_ == MatchIgnore ==> (pfn == 0 <==> forall q: nat :: q < regionCount ==> !Serves(old(shapes[q]), k))
    {
      pfn, r, k := TryRegions(count, mask, match_);
      if pfn != 0 { MatchSet(old(regions[r].tags), mask); }
    }

    /** The tags of the regions, and which of them can serve a request of order `k`. */
    ghost function Supply(k: nat): (s: seq<Offer>)
      requires Sized() && regionCount <= MAX_REGIONS
      reads this, regions
      ensures |s| == regionCount && forall q: nat :: q < |s| ==> s[q] == Offer(regions[q].tags, Serves(shapes[q], k))
    {
      seq(regionCount, q requires 0 <= q < regionCount && Sized() && regionCount <= MAX_REGIONS reads this, regions =>
        Offer(regions[q].tags, Serves(shapes[q], k)))
    }

    /** Either nothing has changed, or region `r` has handed out the block of order `k` at `pfn`. */
    twostate predicate Handed(pfn: nat, r: nat, k: nat)
      requires old(Sized()) && |old(history)| == MAX_REGIONS
      reads this, nodes, regions
    {
      if pfn == 0 then Same()
      else r < MAX_REGIONS && Others(r) && Granted(old(shapes[r]), shapes[r], pfn, k) && Follows(r)
    }

    method PallocWay(count: nat, way: Way, ghost k: nat) returns (pfn: nat, ghost r: nat)
      requires Valid() && count <= 0x8000 && count <= Pow(k) && (k == 0 || Pow(k - 1) < count)
      modifies nodes, regions, this`lists, this`shapes, this`history
      ensures Valid() && Handed(pfn, r, k)
      ensures if pfn == 0 then Fruitless(old(Supply(k)), way) else r < regionCount && Takes(way, old(Supply(k))[r])
    {
      ghost var j;
      pfn, r, j := PallocTag(count, way.mask, way.how);
      SameOrder(count, j, k);
    }

    /** Tries several ways to match in turn; `w` is the one that works. */
    method PallocFirst(count: nat, ways: seq<Way>, ghost k: nat) returns (pfn: nat, ghost r: nat, ghost w: nat)
      requires Valid() && count <= 0x8000 && count <= Pow(k) && (k == 0 || Pow(k - 1) < count)
      modifies nodes, regions, this`lists, this`shapes, this`history
      ensures Valid() && Handed(pfn, r, k) && Chosen(old(Supply(k)), ways, w, r) && (pfn == 0 <==> w == |ways|)
    {
      ghost var offers := Supply(k);
      var t := 0;
      while t < |ways|
        invariant 0 <= t <= |ways| && Valid() && Same() && Supply(k) == offers
        invariant forall v :: 0 <= v < t ==> Fruitless(offers, ways[v])
      {
        pfn, r := PallocWay(count, ways[t], k);
        if pfn != 0 {
          w := t;
          return;
        }
        t := t + 1;
      }
      pfn, r, w := 0, 0, |ways|;
    }

    /** Pages that are normal memory and mapped directly; 0 if and only if no region with those tags can
        serve the request.  Where possible they are directly accessible too. */
    method PallocDirectMapped(count: nat) returns (pfn: nat, ghost r: nat, ghost k: nat)
      requires Valid() && count <= 0x8000
      modifies nodes, regions, this`lists, this`shapes, this`history
      ensures Valid() && count <= Pow(k) && (k == 0 || Pow(k - 1) < count) && Handed(pfn, r, k)
      ensures (pfn == 0 <==> Lacks(old(Supply(k)), Mapped)) && (pfn != 0 ==> r < regionCount && Mapped(old(regions[r].tags)))
      ensures !Lacks(old(Supply(k)), Direct) ==> pfn != 0 && Direct(old(regions[r].tags))
    {
      k := LeastOrder(count);
      ghost var w;
      pfn, r, w := PallocFirst(count, MAPPED_WAYS, k);
      MappedChoice(old(Supply(k)), w, r);
    }

    /** Pages of any kind; 0 if and only if no region at all can serve the request.  Better tags come first. */
    method Palloc(count: nat) returns (pfn: nat, ghost r: nat, ghost k: nat)
      requires Valid() && count <= 0x8000
      modifies nodes, regions, this`lists, this`shapes, this`history
      ensures Valid() && count <= Pow(k) && (k == 0 || Pow(k - 1) < count) && Handed(pfn, r, k)
      ensures (pfn == 0 <==> forall q: nat :: q < regionCount ==> !Serves(old(shapes[q]), k)) && (pfn != 0 ==> r < regionCount)
      ensures !Lacks(old(Supply(k)), Normal) ==> pfn != 0 && Normal(old(regions[r].tags))
      ensures !Lacks(old(Supply(k)), Mapped) ==> pfn != 0 && Mapped(old(regions[r].tags))
      ensures !Lacks(old(Supply(k)), Direct) ==> pfn != 0 && Direct(old(regions[r].tags))
    {
      k := LeastOrder(count);
      ghost var w;
      pfn, r, w := PallocFirst(count, ANY_WAYS, k);
      AnyChoice(old(Supply(k)), w, r);
    }

    /** History independence: whatever was allocated and freed in between, the same blocks in use
        leave the same free blocks. */
    lemma SameUseSameBlocks(r: nat, i: nat, j: nat)
      requires Valid() && r < regionCount && i < |history[r]| && j < |history[r]|
      requires Used(history[r][i]) == Used(history[r][j])
      ensures history[r][i] == history[r][j]
    {
      RunIsCanonical(history[r], i, j);
    }

    /** Freeing everything restores exactly the blocks that the region was created with. */
    lemma FreeingAllRestores(r: nat)
      requires Valid() && r < regionCount && Used(shapes[r]) == map[]
      ensures shapes[r] == history[r][0] && Initial(shapes[r])
    {
      RunIsCanonical(history[r], 0, |history[r]| - 1);
    }
  }

  /** The top bit of a number and whether it is the only one give the order. */
  lemma OrderOfCount(count: nat, top: nat, ones: nat)
    requires 0 < count <= 0x8000 && Pow(top) <= count < Pow(top + 1) && ones == Bits.PopCount(count)
    ensures var o := if ones > 1 then top + 1 else top; o <= MAX_ORDER && count <= Pow(o) && (o == 0 || Pow(o - 1) < count)
  {
    Bits.PopCountOfPower(count, top);
    Bits.PowOfWord();
    OrderFromSize(MAX_ORDER, top);
    if top > 0 { PowStrict(top - 1, top); }
  }

  ghost function LeastOrder(count: nat): (k: nat)
    ensures count <= Pow(k) && (k == 0 || Pow(k - 1) < count)
  {
    PowExceeds(count);
    LeastFrom(count, count)
  }

  lemma {:induction false} PowExceeds(n: nat)
    ensures n < Pow(n)
  {
    if n > 0 { PowExceeds(n - 1); }
  }

  ghost function LeastFrom(count: nat, k: nat): (j: nat)
    requires count <= Pow(k)
    ensures count <= Pow(j) && (j == 0 || Pow(j - 1) < count)
  {
    if k > 0 && count <= Pow(k - 1) then LeastFrom(count, k - 1) else k
  }

  lemma SameOrder(count: nat, j: nat, k: nat)
    requires count <= Pow(j) && (j == 0 || Pow(j - 1) < count)
    requires count <= Pow(k) && (k == 0 || Pow(k - 1) < count)
    ensures j == k
  {
    if j < k { PowMonotone(j, k - 1); }
    if k < j { PowMonotone(k, j - 1); }
  }

  /** Two tilings of one region that agree on the free pages and on the blocks in use. */
  ghost predicate SameBlocks(s: Shape, t: Shape) {
    t.lo == s.lo && t.hi == s.hi && t.FreePages() == s.FreePages() && Used(t) == Used(s)
  }

  lemma SplitStep(v: View, k: nat)
    requires Core(v) && 0 < k < ORDER_COUNT && v.lists[k] != [] && v.shape.CoalescedBut(v.lists[k][0])
    ensures v.CanSplit(k) && Core(v.SplitFirst(k)) && SameOutside(v.mem, v.SplitFirst(k).mem, v.shape.lo, v.shape.hi)
    ensures SameBlocks(v.shape, v.SplitFirst(k).shape)
    ensures v.SplitFirst(k).lists[k - 1] != [] && v.SplitFirst(k).shape.CoalescedBut(v.SplitFirst(k).lists[k - 1][0])
  {
    HeadOfList(v, k);
    SplitFirstCore(v, k);
    SplitKeepsPages(v.shape, v.lists[k][0]);
    SplitCoalesces(v.shape, v.lists[k][0]);
    SplitUsed(v.shape, v.lists[k][0]);
  }

  lemma SplitUsed(s: Shape, h: nat)
    requires s.Tiled() && h in s.free && s.order[h] > 0
    ensures Used(s.Split(h)) == Used(s)
  {
    SplitTiles(s, h);
  }

  lemma MergeUsed(s: Shape, p: nat)
    requires s.FreePair(p)
    ensures Used(s.Merge(p)) == Used(s)
  {
  }

  ghost predicate OutsiderFree(m: Mem, r: nat, s: Shape) {
    forall p: nat :: m.Has(p) && !(s.lo <= p < s.hi) ==> !(m.At(p).avail && m.At(p).region == r)
  }

  lemma FreeHead(v: View, p: nat)
    requires Core(v) && p in v.shape.free
    ensures v.mem.Has(p) && Aligned(p, v.shape.order[p]) && v.shape.order[p] <= MAX_ORDER
    ensures var n := v.mem.At(p); n.region == v.r && n.order == v.shape.order[p] && !n.alloc
  {
    assert v.shape.BlockOk(p);
    assert NodeOk(v.mem.At(p), p, v.r, v.shape);
  }

  ghost predicate BuddyFound(m: Mem, q: nat, r: nat, k: nat) {
    m.Has(q) && (var n := m.At(q); n.avail && n.region == r && !n.alloc && n.order == k)
  }

  /** `p` and its buddy have become the free block `h` of the next order. */
  ghost predicate Joined(v: View, v': View, p: nat, h: nat) {
    && Core(v') && SameOutside(v.mem, v'.mem, v'.shape.lo, v'.shape.hi) && SameBlocks(v.shape, v'.shape)
    && p in v.shape.order && h in v'.shape.free && v'.shape.order[h] == v.shape.order[p] + 1
    && v'.shape.CoalescedBut(h) && OutsiderFree(v'.mem, v'.r, v'.shape)
  }

  /** The verdict of the metadata test decides whether the region is already coalesced. */
  lemma BuddyTest(v: View, p: nat, q: nat, h: nat, k: nat)
    requires Core(v) && OutsiderFree(v.mem, v.r, v.shape) && p in v.shape.free && v.shape.order[p] == k < MAX_ORDER
    requires v.shape.CoalescedBut(p)
    requires if Aligned(p, k + 1) then h == p && q == p + Pow(k) else p >= Pow(k) && h == q == p - Pow(k)
    ensures !BuddyFound(v.mem, q, v.r, k) ==> v.shape.Coalesced()
    ensures BuddyFound(v.mem, q, v.r, k) ==> v.CanMerge(p, q, k) && !v.mem.At(p).alloc && k < MAX_ORDER && Joined(v, v.MergePair(p, q, k), p, h)
  {
    BuddyVerdict(v, p, q, h, k);
    if BuddyFound(v.mem, q, v.r, k) { MergeStep(v, p, q, k, h); }
  }

  lemma BuddyVerdict(v: View, p: nat, q: nat, h: nat, k: nat)
    requires Core(v) && OutsiderFree(v.mem, v.r, v.shape) && p in v.shape.free && v.shape.order[p] == k < MAX_ORDER
    requires v.shape.CoalescedBut(p)
    requires if Aligned(p, k + 1) then h == p && q == p + Pow(k) else p >= Pow(k) && h == q == p - Pow(k)
    ensures if BuddyFound(v.mem, q, v.r, k) then v.shape.FreePair(h) && v.shape.order[h] == k else v.shape.Coalesced()
  {
    FreeHead(v, p);
    BuddyAligned(p, q, h, k);
    if v.mem.Has(q) { MetadataTestIsGenuine(v.mem, v.r, v.shape, q, k); }
    if q in v.shape.free { FreeHead(v, q); }
    PairOrNot(v.shape, p, q, h, k);
  }

  lemma BuddyAligned(p: nat, q: nat, h: nat, k: nat)
    requires Aligned(p, k)
    requires if Aligned(p, k + 1) then h == p && q == p + Pow(k) else p >= Pow(k) && h == q == p - Pow(k)
    ensures Aligned(q, k) && Aligned(h, k + 1) && h == Parent(p, k)
  {
    if Aligned(p, k + 1) { UpperHalf(p, k); } else { LowerHalf(p, k); AlignedDown(q, k, k + 1); }
  }

  lemma PairOrNot(s: Shape, p: nat, q: nat, h: nat, k: nat)
    requires s.Tiled() && p in s.free && s.order[p] == k < MAX_ORDER && s.CoalescedBut(p)
    requires Aligned(h, k + 1) && h == Parent(p, k)
    requires (p == h && q == h + Pow(k)) || (q == h && p == h + Pow(k))
    ensures if q in s.free && s.order[q] == k then s.FreePair(h) else s.Coalesced()
  {
    if !s.FreePair(h) { NoBuddyMeansCoalesced(s, p); }
  }

  lemma OutsidersKept(m: Mem, m': Mem, r: nat, s: Shape)
    requires OutsiderFree(m, r, s) && SameOutside(m, m', s.lo, s.hi)
    ensures OutsiderFree(m', r, s)
  {
  }

  lemma MergeStep(v: View, p: nat, q: nat, k: nat, h: nat)
    requires Core(v) && OutsiderFree(v.mem, v.r, v.shape) && v.shape.FreePair(h) && v.shape.order[h] == k
    requires (p == h && q == h + Pow(k)) || (q == h && p == h + Pow(k))
    requires v.shape.CoalescedBut(p)
    ensures v.CanMerge(p, q, k) && !v.mem.At(p).alloc && !v.mem.At(q).alloc && k < MAX_ORDER
    ensures Joined(v, v.MergePair(p, q, k), p, h)
  {
    FreeHead(v, p);
    FreeHead(v, q);
    MergePairCore(v, p, q, k, h);
    OutsidersKept(v.mem, v.MergePair(p, q, k).mem, v.r, v.shape);
    MergeShape(v.shape, p, h);
  }

  lemma MergeShape(s: Shape, p: nat, h: nat)
    requires s.Tiled() && s.FreePair(h) && s.CoalescedBut(p) && (p == h || p == h + Pow(s.order[h]))
    ensures SameBlocks(s, s.Merge(h)) && s.Merge(h).CoalescedBut(h)
  {
    MergeKeepsPages(s, h);
    MergeUsed(s, h);
    MergeCoalesces(s, h, p);
  }

  // ---------------------------------------------------------------- allocation

  /** No aligned block of order `k` lies in `pages`. */
  ghost predicate NoRun(pages: set<nat>, k: nat) {
    forall p: nat :: Aligned(p, k) ==> !Run(pages, p, k)
  }

  /** A request of order `k` can be served: it is not of the maximal order, and some aligned block of
      its order lies in the free pages. */
  ghost predicate Serves(s: Shape, k: nat) { k != MAX_ORDER && !NoRun(s.FreePages(), k) }

  /** `pfn` names an aligned block of order `k` that was free and now is in use; nothing else changed. */
  ghost predicate Granted(s: Shape, t: Shape, pfn: nat, k: nat) {
    && Aligned(pfn, k) && Run(s.FreePages(), pfn, k)
    && t.lo == s.lo && t.hi == s.hi
    && t.FreePages() == s.FreePages() - BlockPages(pfn, k)
    && pfn !in Used(s) && Used(t) == Used(s)[pfn := k]
  }

  lemma TooFewPages(pages: set<nat>, k: nat)
    requires |pages| < Pow(k)
    ensures NoRun(pages, k)
  {
    forall p: nat ensures !Run(pages, p, k) {
      if Run(pages, p, k) {
        BlockPagesCard(p, k);
        SubsetCard(BlockPages(p, k), pages);
      }
    }
  }

  lemma NoBlockNoRun(v: View, k: nat)
    requires Core(v) && v.shape.Coalesced() && k < MAX_ORDER && v.lists[k] == []
    requires forall j :: k + 1 <= j < ORDER_COUNT ==> v.lists[j] == []
    ensures NoRun(v.shape.FreePages(), k)
  {
    forall h: nat | h in v.shape.free ensures v.shape.order[h] < k {
      assert v.shape.BlockOk(h);
      assert h in v.lists[v.shape.order[h]];
    }
    forall p: nat | Aligned(p, k) ensures !Run(v.shape.FreePages(), p, k) {
      if Run(v.shape.FreePages(), p, k) {
        var h := RunInOneBlock(v.shape, p, k);
      }
    }
  }

  lemma TakeGrants(s: Shape, t: Shape, h: nat)
    requires t.Tiled() && h in t.free && SameBlocks(s, t)
    ensures Granted(s, t.Take(h), h, t.order[h])
    ensures !NoRun(s.FreePages(), t.order[h])
  {
    TakeTiles(t, h);
    BlockIsRun(t, h);
    assert t.BlockOk(h);
    TakeUsed(t, h);
  }

  lemma TakeUsed(t: Shape, h: nat)
    requires h in t.free && h in t.order
    ensures h !in Used(t) && Used(t.Take(h)) == Used(t)[h := t.order[h]]
  {
  }

  lemma TakeStep(s: Shape, v: View, k: nat)
    requires Core(v) && k < ORDER_COUNT && v.lists[k] != [] && v.shape.CoalescedBut(v.lists[k][0])
    requires SameBlocks(s, v.shape)
    ensures v.mem.Has(v.buddies[k].next) && v.avail >= Pow(k) && v.buddies[k].next >= v.shape.lo
    ensures Core(v.TakeFirst(k)) && v.TakeFirst(k).shape.Coalesced()
    ensures SameOutside(v.mem, v.TakeFirst(k).mem, v.shape.lo, v.shape.hi)
    ensures Granted(s, v.TakeFirst(k).shape, v.buddies[k].next, k)
    ensures !NoRun(s.FreePages(), k)
  {
    HeadOfList(v, k);
    TakeFirstCore(v, k);
    TakeCoalesces(v.shape, v.buddies[k].next);
    TakeGrants(s, v.shape, v.buddies[k].next);
  }

  /** The block at `pfn` is free again; nothing else changed. */
  ghost predicate Returned(s: Shape, t: Shape, pfn: nat) {
    && pfn in Used(s) && t.lo == s.lo && t.hi == s.hi
    && t.FreePages() == s.FreePages() + BlockPages(pfn, Used(s)[pfn])
    && Used(t) == Used(s) - {pfn}
  }

  lemma UsedHead(v: View, p: nat)
    requires Core(v) && p in v.shape.order && p !in v.shape.free
    ensures v.mem.Has(p) && v.shape.order[p] < ORDER_COUNT
    ensures v.mem.At(p).region == v.r && v.mem.At(p).order == v.shape.order[p]
  {
    assert v.shape.BlockOk(p);
    assert NodeOk(v.mem.At(p), p, v.r, v.shape);
  }

  lemma GiveStep(v: View, p: nat, k: nat)
    requires Core(v) && v.shape.Coalesced() && p in v.shape.order && p !in v.shape.free && v.shape.order[p] == k
    ensures v.Fits(k) && v.mem.Has(p)
    ensures Core(v.GiveBack(p, k)) && v.GiveBack(p, k).shape.CoalescedBut(p)
    ensures SameOutside(v.mem, v.GiveBack(p, k).mem, v.shape.lo, v.shape.hi)
    ensures Returned(v.shape, v.GiveBack(p, k).shape, p)
  {
    GiveBackCore(v, p, k);
    GiveCoalesces(v.shape, p);
    GiveTiles(v.shape, p);
    assert Used(v.shape.Give(p)) == Used(v.shape) - {p};
  }

  lemma NewRegionGrows(v: View, limit: nat)
    requires v.shape == Shape(v.shape.lo, v.shape.lo, map[], {})
    requires v.buddies == seq(ORDER_COUNT, i => ZERO_NODE) && v.lists == seq(ORDER_COUNT, i => [])
    requires v.mem.start <= v.shape.lo <= limit <= v.mem.start + |v.mem.nodes| && Untouched(v.mem, v.shape.lo, limit)
    ensures Growing(v, limit)
  {
    forall k | 0 <= k < ORDER_COUNT ensures Chain(v.mem, v.lists[k], k) { assert v.lists[k] == []; }
  }

  // ---------------------------------------------------------------- regions from the page database

  /** The scan records page `i`: it is free, and does not follow a recorded page with other tags. */
  ghost predicate Recorded(db: seq<PfnEntry>, i: nat) {
    i < |db| && db[i].Free() && (i > 0 && Recorded(db, i - 1) ==> db[i].tags == db[i - 1].tags)
  }

  /** The number of regions that start among the first `n` pages. */
  ghost function Starts(db: seq<PfnEntry>, n: nat): nat {
    if n == 0 then 0
    else Starts(db, n - 1) + if Recorded(db, n - 1) && !(n > 1 && Recorded(db, n - 2)) then 1 else 0
  }

  lemma {:induction false} StartsMonotone(db: seq<PfnEntry>, i: nat, n: nat)
    requires i < n
    ensures Starts(db, i + 1) <= Starts(db, n)
    decreases n
  {
    if i + 1 < n { StartsMonotone(db, i, n - 1); }
  }

  /** Pages `i - 1` and `i` are both free, and their tags differ. */
  predicate TagChange(db: seq<PfnEntry>, i: nat) {
    0 < i < |db| && db[i - 1].Free() && db[i].Free() && db[i].tags != db[i - 1].tags
  }

  /** The number of consecutive tag changes that end at page `i`. */
  function Streak(db: seq<PfnEntry>, i: nat): nat {
    if TagChange(db, i) then Streak(db, i - 1) + 1 else 0
  }

  /** A free page is lost if and only if the streak of tag changes that ends at it is odd. */
  lemma {:induction false} LostAtOddStreak(db: seq<PfnEntry>, i: nat)
    requires i < |db|
    ensures Recorded(db, i) <==> db[i].Free() && Streak(db, i) % 2 == 0
  {
    if TagChange(db, i) { LostAtOddStreak(db, i - 1); }
  }

  /** No free page is lost if and only if no two adjacent free pages have different tags. */
  lemma NothingLost(db: seq<PfnEntry>)
    ensures (forall i: nat :: i < |db| && db[i].Free() ==> Recorded(db, i)) <==> (forall i: nat :: !TagChange(db, i))
  {
    forall i: nat | TagChange(db, i)
      ensures db[i - 1].Free() && db[i].Free() && !(Recorded(db, i - 1) && Recorded(db, i)) {}
    if forall i: nat :: !TagChange(db, i) {
      forall i: nat | i < |db| && db[i].Free() ensures Recorded(db, i) { LostAtOddStreak(db, i); }
    }
  }

  // ---------------------------------------------------------------- runs

  /** One allocation or one free. */
  ghost predicate Moves(s: Shape, t: Shape) {
    (exists pfn: nat, k: nat :: Granted(s, t, pfn, k)) || (exists pfn: nat :: Returned(s, t, pfn))
  }

  /** The tiling that a region starts with: the largest aligned blocks from its first page on, all free. */
  ghost predicate Initial(s: Shape) { s.Tiled() && Greedy(s, s.hi) && Used(s) == map[] }

  /** Tiled and coalesced states, each one allocation or free after the one before. */
  ghost predicate IsRun(run: seq<Shape>) {
    && (forall i :: 0 <= i < |run| ==> run[i].Tiled() && run[i].Coalesced())
    && forall i :: 0 <= i < |run| - 1 ==> Moves(run[i], run[i + 1])
  }

  ghost predicate IsHistory(run: seq<Shape>, s: Shape) {
    |run| > 0 && Initial(run[0]) && IsRun(run) && run[|run| - 1] == s
  }

  lemma HistoryGrows(run: seq<Shape>, s: Shape, t: Shape)
    requires IsHistory(run, s) && Moves(s, t) && t.Tiled() && t.Coalesced()
    ensures IsHistory(run + [t], t)
  {
  }

  lemma {:induction false} RunKeepsBounds(run: seq<Shape>, i: nat)
    requires IsRun(run) && i < |run|
    ensures run[i].lo == run[0].lo && run[i].hi == run[0].hi
  {
    if i > 0 {
      RunKeepsBounds(run, i - 1);
      assert Moves(run[i - 1], run[(i - 1) + 1]);
    }
  }

  /** The same blocks in use leave the same free blocks. */
  lemma RunIsCanonical(run: seq<Shape>, i: nat, j: nat)
    requires IsRun(run) && i < |run| && j < |run| && Used(run[i]) == Used(run[j])
    ensures run[i] == run[j]
  {
    RunKeepsBounds(run, i);
    RunKeepsBounds(run, j);
    SameUsedSameShape(run[i], run[j]);
  }

  /** Freeing what was just allocated undoes the splits. */
  lemma FreeUndoesAlloc(s: Shape, t: Shape, u: Shape, pfn: nat, k: nat)
    requires s.Tiled() && s.Coalesced() && u.Tiled() && u.Coalesced()
    requires Granted(s, t, pfn, k) && Returned(t, u, pfn)
    ensures u == s
  {
    assert Used(u) == Used(s);
    SameUsedSameShape(u, s);
  }
}
