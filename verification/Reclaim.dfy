/** A process together with the shootdown queue: how an address that was freed becomes available again. */
module Reclaim {
  import opened Common
  import opened List
  import opened Ranges
  import opened AddressSpace
  import Tlb

  /** The blocks of the requests from `n` on that are the process's own. */
  ghost function Pending(asked: seq<Block>, owned: seq<bool>, n: nat): seq<Block>
    requires n <= |asked| == |owned|
    decreases |asked| - n
  {
    if n == |asked| then [] else (if owned[n] then [asked[n]] else []) + Pending(asked, owned, n + 1)
  }

  lemma {:induction false} PendingAppend(asked: seq<Block>, owned: seq<bool>, n: nat, b: Block, own: bool)
    requires n <= |asked| == |owned|
    ensures Pending(asked + [b], owned + [own], n) == Pending(asked, owned, n) + if own then [b] else []
    decreases |asked| - n
  {
    var asked', owned' := asked + [b], owned + [own];
    if n == |asked| {
      assert Pending(asked', owned', n + 1) == [];
    } else {
      PendingAppend(asked, owned, n + 1, b, own);
      assert asked'[n] == asked[n] && owned'[n] == owned[n];
    }
  }

  lemma {:induction false} PendingHolds(asked: seq<Block>, owned: seq<bool>, n: nat, k: nat)
    requires n <= k < |asked| == |owned| && owned[k]
    ensures asked[k] in Pending(asked, owned, n)
    decreases k - n
  {
    if n < k { PendingHolds(asked, owned, n + 1, k); }
  }

  /** The same for the requests from `m` up to `n`, in the order of the requests. */
  ghost function OwnBetween(asked: seq<Block>, owned: seq<bool>, m: nat, n: nat): seq<Block>
    requires n <= |asked| == |owned|
  {
    if n <= m then [] else OwnBetween(asked, owned, m, n - 1) + if owned[n - 1] then [asked[n - 1]] else []
  }

  lemma {:induction false} OwnJoin(asked: seq<Block>, owned: seq<bool>, m: nat, n: nat, k: nat)
    requires m <= n <= k <= |asked| == |owned|
    ensures OwnBetween(asked, owned, m, n) + OwnBetween(asked, owned, n, k) == OwnBetween(asked, owned, m, k)
    decreases k
  {
    if n < k {
      OwnJoin(asked, owned, m, n, k - 1);
      assert OwnBetween(asked, owned, m, n) + OwnBetween(asked, owned, n, k) ==
        OwnBetween(asked, owned, m, n) + OwnBetween(asked, owned, n, k - 1) + if owned[k - 1] then [asked[k - 1]] else [];
    }
  }

  /** Exactly the blocks `bs` have gone from one sanitizing list to the end of the other. */
  ghost predicate Moved(l: Layout, m: Layout, bs: seq<Block>) {
    && m == l.(sanitMapped := m.sanitMapped, sanitUnmapped := l.sanitUnmapped + bs)
    && multiset(m.sanitMapped) + multiset(bs) == multiset(l.sanitMapped)
  }

  lemma MovedTwice(l: Layout, m: Layout, k: Layout, bs: seq<Block>, cs: seq<Block>)
    requires Moved(l, m, bs) && Moved(m, k, cs)
    ensures Moved(l, k, bs + cs)
  {
    assert l.sanitUnmapped + (bs + cs) == l.sanitUnmapped + bs + cs;
  }

  lemma InBag(s: seq<Block>, b: Block)
    requires b in s
    ensures Bag(s)[b.r] > 0
  {
    var i :| 0 <= i < |s| && s[i] == b;
    assert Spans(s)[i] in multiset(Spans(s));
  }

  /** An address of a block that is being sanitized is in no block that is available or in use. */
  lemma SanitizedIsNowhereElse(l: Layout, b: Block, x: Block, a: int, lo: int, hi: int)
    requires l.Ok(lo, hi) && b in l.sanitMapped && (x in l.avail || x in l.inuse) && Has(b.r, a)
    ensures !Has(x.r, a)
  {
    var m := Bag(l.avail) + l.Busy();
    InBag(l.sanitMapped, b);
    if x in l.avail { InBag(l.avail, x); } else { InBag(l.inuse, x); }
    assert b.r in m && x.r in m && m[b.r] == 1;
    assert b.r != x.r;
    assert Clear(b.r, x.r);
  }

  /** The blocks of the process that wait for their shootdown are exactly its requests from `n` on. */
  ghost predicate Linked(mapped: seq<Block>, asked: seq<Block>, owned: seq<bool>, n: nat) {
    n <= |asked| == |owned| && multiset(mapped) == multiset(Pending(asked, owned, n))
  }

  lemma LinkedAppend(mapped: seq<Block>, mapped': seq<Block>, asked: seq<Block>, owned: seq<bool>, n: nat, b: Block, mark: bool)
    requires Linked(mapped, asked, owned, n)
    requires multiset(mapped') == multiset(mapped) + if mark then multiset{b} else multiset{}
    ensures Linked(mapped', asked + [b], owned + [mark], n)
  {
    PendingAppend(asked, owned, n, b, mark);
  }

  /** If the next request is the process's own, then its block waits ... */
  lemma LinkedHead(mapped: seq<Block>, asked: seq<Block>, owned: seq<bool>, n: nat)
    requires Linked(mapped, asked, owned, n) && n < |asked| && owned[n]
    ensures asked[n] in mapped
  {
    PendingHolds(asked, owned, n, n);
    assert asked[n] in multiset(mapped);
  }

  /** ... until the request is done. */
  lemma LinkedNext(mapped: seq<Block>, mapped': seq<Block>, asked: seq<Block>, owned: seq<bool>, n: nat, next: nat)
    requires Linked(mapped, asked, owned, n) && n < |asked| && next == n + 1
    requires multiset(mapped') == multiset(mapped) - if owned[n] then multiset{asked[n]} else multiset{}
    ensures Linked(mapped', asked, owned, next)
  {
    var rest := Pending(asked, owned, n + 1);
    if owned[n] { assert multiset([asked[n]] + rest) == multiset{asked[n]} + multiset(rest); }
  }

  /** The waiting blocks `mapped` belong to the requests of state `s` that are not released; `owned`
      says of every request, and `mine` of every queued one, whether it is the process's own. */
  ghost predicate Tied(mapped: seq<Block>, s: Tlb.State, mine: seq<bool>, owned: seq<bool>) {
    Linked(mapped, s.asked, owned, |s.released|) && mine == owned[|s.released|..]
  }

  lemma TiedAsk(mapped: seq<Block>, mapped': seq<Block>, s: Tlb.State, s': Tlb.State, mine: seq<bool>, owned: seq<bool>, b: Block, mark: bool)
    requires Tied(mapped, s, mine, owned) && s'.asked == s.asked + [b] && s'.released == s.released
    requires multiset(mapped') == multiset(mapped) + if mark then multiset{b} else multiset{}
    ensures Tied(mapped', s', mine + [mark], owned + [mark])
  {
    LinkedAppend(mapped, mapped', s.asked, owned, |s.released|, b, mark);
  }

  /** On one CPU a request is released at once. */
  lemma TiedAskOne(mapped: seq<Block>, s: Tlb.State, s': Tlb.State, mine: seq<bool>, owned: seq<bool>, b: Block, mark: bool)
    requires Tied(mapped, s, mine, owned) && s.released == s.asked && s'.released == s'.asked == s.asked + [b]
    ensures Tied(mapped, s', mine, owned + [mark])
  {
  }

  /** One process and the queue that it shares with all others. */
  class Reclaimer {
    const p: Process
    const t: Tlb.Shootdown

    /** Which requests of the queue are for blocks of the process. */
    var mine: seq<bool>

    // The same for every request there ever was.
    ghost var owned: seq<bool>

    ghost predicate Valid()
      reads this, p, t, t.local
    {
      p.Valid() && t.Valid() && Tied(p.sanitMapped, t.S(), mine, owned) && p.reuse == []
    }

    constructor (start: nat, end: nat, cpus: nat)
      requires 0 < start < end < WORD64 && cpus > 0
      ensures Valid() && fresh(p) && fresh(t) && fresh(t.local)
    {
      p := new Process(start, end);
      t := new Tlb.Shootdown(cpus);
      mine, owned := [], [];
    }

    /** Safety: an address of a block that was freed is available or in use again only after every
        CPU has invalidated that block. */
    lemma BackOnlyAfterAllHaveSeen(k: nat, x: Block, a: int, c: nat)
      requires Valid() && k < |t.asked| && owned[k] && Has(t.asked[k].r, a)
      requires (x in p.avail || x in p.inuse) && Has(x.r, a) && c < t.cpus
      ensures k < |t.seen[c]| && t.seen[c][k] == t.asked[k]
    {
      assert k < |t.released| by {
        if k >= |t.released| {
          PendingHolds(t.asked, owned, |t.released|, k);
          assert t.asked[k] in multiset(p.sanitMapped);
          SanitizedIsNowhereElse(p.L(), t.asked[k], x, a, p.lo, p.hi);
        }
      }
      t.ReleasedIsSeen(c);
    }

    /** Asks for the shootdown of a block that was just put on the list of blocks to sanitize; on one
        CPU it is done at once. */
    method Request(sanit: Block, ghost before: seq<Block>)
      requires p.Valid() && t.Valid() && Tied(before, t.S(), mine, owned) && p.reuse == []
      requires multiset(p.sanitMapped) == multiset(before) + multiset{sanit}
      modifies this, t, p`sanitMapped, p`sanitUnmapped
      ensures Valid() && t.asked == old(t.asked) + [sanit] && owned == old(owned) + [true]
      ensures if t.cpus == 1 then Moved(old(p.L()), p.L(), [sanit]) else p.L() == old(p.L())
    {
      ghost var s, mapped := t.S(), p.sanitMapped;
      assert sanit in multiset(mapped);
      var wait := t.RequestShootdown(sanit);
      if wait == 0 {
        UnmappedOk(p.L(), sanit, p.lo, p.hi);
        UnmappedBag(p.L(), sanit);
        Unmap(sanit);
        TiedAskOne(before, s, t.S(), mine, owned, sanit, true);
      } else {
        TiedAsk(before, mapped, s, t.S(), mine, owned, sanit, true);
        mine := mine + [true];
      }
      owned := owned + [true];
    }

    /** The shootdown of `b` is complete. */
    method Unmap(b: Block)
      requires p.Counted() && b in p.sanitMapped
      modifies p`sanitMapped, p`sanitUnmapped
      ensures p.Counted() && p.L() == Unmapped(old(p.L()), b)
    {
      var i := 0;
      while p.sanitMapped[i] != b
        invariant 0 <= i < |p.sanitMapped| && b !in p.sanitMapped[..i]
        decreases |p.sanitMapped| - i
      {
        i := i + 1;
      }
      FirstIs(p.sanitMapped, b, i);
      p.MoveToSanitUnmapped(i);
    }

    /** Another process asks for a shootdown. */
    method ForeignRequest(b: Block)
      requires Valid()
      modifies this, t
      ensures Valid() && t.asked == old(t.asked) + [b] && owned == old(owned) + [false] && p.L() == old(p.L())
    {
      ghost var s := t.S();
      var wait := t.RequestShootdown(b);
      if wait == 0 {
        TiedAskOne(p.sanitMapped, s, t.S(), mine, owned, b, false);
      } else {
        TiedAsk(p.sanitMapped, p.sanitMapped, s, t.S(), mine, owned, b, false);
        mine := mine + [false];
      }
      owned := owned + [false];
    }

    /** Frees the block in use at `base` and asks for its shootdown.  On one CPU the block can be cleaned
        at once, on more it waits for the others. */
    method Free(base: int) returns (ok: bool, ghost j: nat)
      requires Valid()
      modifies this, t, p
      ensures Valid() && (ok <==> exists j :: 0 <= j < |old(p.inuse)| && old(p.inuse)[j].r.base == base)
      ensures !ok ==> p.L() == old(p.L()) && t.asked == old(t.asked) && owned == old(owned)
      ensures ok ==> j < |old(p.inuse)| && old(p.inuse)[j].r.base == base
      ensures ok ==> t.asked == old(t.asked) + [old(p.inuse)[j]] && owned == old(owned) + [true]
      ensures ok ==> if t.cpus == 1 then Moved(Retired(old(p.L()), j), p.L(), [old(p.inuse)[j]]) else p.L() == Retired(old(p.L()), j)
    {
      var sanit;
      ok, sanit, j := FreeBlock(base);
      if ok {
        Request(sanit.value, old(p.sanitMapped));
      }
    }

    method FreeBlock(base: int) returns (ok: bool, sanit: Option<Block>, ghost j: nat)
      requires p.Valid() && p.reuse == []
      modifies p`inuse, p`reuse, p`sanitMapped, p`flight
      ensures p.Valid() && p.reuse == [] && ok == sanit.Some? && (!ok ==> p.L() == old(p.L()))
      ensures ok <==> exists j :: 0 <= j < |old(p.inuse)| && old(p.inuse)[j].r.base == base
      ensures ok ==> j < |old(p.inuse)| && old(p.inuse)[j].r.base == base && sanit.value == old(p.inuse)[j]
      ensures ok ==> p.L() == Retired(old(p.L()), j) && multiset(p.sanitMapped) == multiset(old(p.sanitMapped)) + multiset{sanit.value}
    {
      ok, sanit, j := p.VmFree(base);
      if ok { FreedIsRetired(old(p.L()), j); }
    }

    method Alloc(base: nat, size: nat) returns (b: Option<Block>)
      requires Valid() && base < WORD64 && size < WORD64 && RequestEnd(base, size) > RoundDown(base)
      modifies p
      ensures Valid()
      ensures var i := FirstFit(old(p.avail), RoundDown(base), RequestEnd(base, size), RequestSize(base, size));
        if i == |old(p.avail)| then b.None? && p.L() == old(p.L())
        else b.Some? && Answers(b.value, old(p.avail)[i].r, base, size)
             && p.L() == AddressSpace.Granted(old(p.L()), i, b.value, GrantEnd(b.value, base, size))
    {
      b := p.VmAlloc(base, size);
    }

    /** No stack ever waits for reuse, so a new one comes off the end of the last available block. */
    method AllocThread(size: nat) returns (b: Option<Block>)
      requires Valid() && size > 0
      modifies p
      ensures Valid() && (b.None? <==> LastRange(old(p.avail)).size < size)
      ensures if b.None? then p.L() == old(p.L()) else Stacked(old(p.L()), p.L(), b.value, size)
    {
      b := TakeStack(size);
    }

    method TakeStack(size: nat) returns (b: Option<Block>)
      requires p.Valid() && size > 0 && p.reuse == []
      modifies p
      ensures p.Valid() && (b.None? <==> LastRange(old(p.avail)).size < size)
      ensures if b.None? then p.L() == old(p.L()) else Stacked(old(p.L()), p.L(), b.value, size)
    {
      b := p.VmAllocThread(size);
    }

    /** The cleaner makes the sanitized blocks available: every address of theirs is available now. */
    method Clean()
      requires Valid()
      modifies p
      ensures Valid() && p.L() == old(p.L()).(avail := p.avail, sanitUnmapped := [])
      ensures forall b, a :: b in old(p.sanitUnmapped) && Has(b.r, a) ==> Offered(p.avail, a)
      ensures p.inuse == [] && p.sanitMapped == [] && p.flight == [] ==> Spans(p.avail) == [Range(p.lo, p.hi - p.lo)]
    {
      p.MoveSanitToAvail();
      forall b, a | b in old(p.sanitUnmapped) && Has(b.r, a) ensures Offered(p.avail, a) {
        BackInAvail(old(p.L()), p.L(), b, a, p.lo, p.hi);
      }
    }

    /** A CPU serves the queue: it invalidates everything that was asked for, and exactly the own blocks
        that every CPU has invalidated by then leave the queue and are unmapped. */
    method Service(cpu: nat)
      requires Valid() && cpu < t.cpus
      modifies this, t, t.local, p`sanitMapped, p`sanitUnmapped
      ensures Valid() && owned == old(owned) && t.asked == old(t.asked) && t.seen == old(t.seen)[cpu := t.asked]
      ensures forall i :: 0 <= i < |t.queue| ==> t.queue[i].waitAcks > 0
      ensures |old(t.released)| <= |t.released| <= |t.asked|
      ensures Moved(old(p.L()), p.L(), OwnBetween(t.asked, owned, |old(t.released)|, |t.released|))
    {
      if t.cpus > 1 {
        Tlb.WalkMovesCpu(t.S(), cpu);
        t.WalkQueue(cpu);
        Reap();
      } else {
        assert p.sanitUnmapped + [] == p.sanitUnmapped;
      }
    }

    /** Progress: once every CPU has served, in any order and any number of times, nothing waits any more
        and every own block that was asked for is unmapped. */
    method ServeAll(schedule: seq<nat>)
      requires Valid() && (forall i :: 0 <= i < |schedule| ==> schedule[i] < t.cpus) && forall c: nat :: c < t.cpus ==> c in schedule
      modifies this, t, t.local, p`sanitMapped, p`sanitUnmapped
      ensures Valid() && owned == old(owned) && t.asked == old(t.asked) && t.released == t.asked && p.sanitMapped == []
      ensures |old(t.released)| <= |t.asked| && Moved(old(p.L()), p.L(), OwnBetween(t.asked, owned, |old(t.released)|, |t.asked|))
    {
      ghost var first, asked, l := |t.released|, t.asked, p.L();
      assert p.sanitUnmapped + [] == p.sanitUnmapped;
      var i := 0;
      while i < |schedule|
        invariant 0 <= i <= |schedule| && Valid() && owned == old(owned) && t.asked == asked && Advanced(l, first)
        invariant UpToDate(t.seen, asked, schedule[..i])
        invariant i > 0 ==> NoneReady()
      {
        OneMoreServed(t.seen, asked, schedule, i);
        ServeNext(schedule[i], l, first);
        i := i + 1;
      }
      AllServed(t.seen, asked, schedule, i);
      assert 0 in schedule;
      t.AllSeenAllReleased();
      assert Pending(asked, owned, |asked|) == [];
      assert |multiset(p.sanitMapped)| == 0;
    }

    /** No request that every CPU has acknowledged is queued. */
    ghost predicate NoneReady()
      reads t
    {
      forall i :: 0 <= i < |t.queue| ==> t.queue[i].waitAcks > 0
    }

    /** Since the state with layout `l` and `first` released requests, exactly the own blocks of the
        requests released in between have moved. */
    ghost predicate Advanced(l: Layout, first: nat)
      reads this, p, t
    {
      && first <= |t.released| <= |t.asked| == |owned|
      && Moved(l, p.L(), OwnBetween(t.asked, owned, first, |t.released|))
    }

    method ServeNext(cpu: nat, ghost l: Layout, ghost first: nat)
      requires Valid() && cpu < t.cpus && Advanced(l, first)
      modifies this, t, t.local, p`sanitMapped, p`sanitUnmapped
      ensures Valid() && owned == old(owned) && t.asked == old(t.asked) && Advanced(l, first) && NoneReady()
      ensures t.seen == old(t.seen)[cpu := t.asked]
    {
      ghost var mid, m := |t.released|, p.L();
      Service(cpu);
      OwnJoin(t.asked, owned, first, mid, |t.released|);
      MovedTwice(l, m, p.L(), OwnBetween(t.asked, owned, first, mid), OwnBetween(t.asked, owned, mid, |t.released|));
    }

    /** A block that was freed comes back: after every CPU has served and the cleaner has run, every
        address that was to be sanitized is available, and blocks in use stay in use. */
    method Recover(schedule: seq<nat>)
      requires Valid() && (forall i :: 0 <= i < |schedule| ==> schedule[i] < t.cpus) && forall c: nat :: c < t.cpus ==> c in schedule
      modifies this, t, t.local, p
      ensures Valid() && p.inuse == old(p.inuse) && p.sanitMapped == [] && p.sanitUnmapped == []
      ensures forall b, a :: (b in old(p.sanitMapped) || b in old(p.sanitUnmapped)) && Has(b.r, a) ==> Offered(p.avail, a)
      ensures p.inuse == [] && p.flight == [] ==> Spans(p.avail) == [Range(p.lo, p.hi - p.lo)]
    {
      ServeAll(schedule);
      MovedAll(old(p.L()), p.L(), OwnBetween(t.asked, owned, |old(t.released)|, |t.asked|));
      Clean();
    }

    method Reap()
      requires Valid() && t.cpus > 1
      modifies this`mine, t, p`sanitMapped, p`sanitUnmapped
      ensures Valid() && t.S() == Tlb.Step(old(t.S()), Tlb.Reap) && forall i :: 0 <= i < |t.queue| ==> t.queue[i].waitAcks > 0
      ensures |old(t.released)| <= |t.released| <= |t.asked|
      ensures Moved(old(p.L()), p.L(), OwnBetween(t.asked, owned, |old(t.released)|, |t.released|))
    {
      OkLasts(p.lo, p.hi);
      ReapKeeps(p.L(), t.S(), mine, owned, OkIn(p.lo, p.hi));
      ReapAndUnmap();
    }

    method ReapAndUnmap()
      requires p.Counted() && t.Valid() && t.cpus > 1 && |mine| == |t.queue| && Ready(p.L(), t.S(), mine)
      modifies this`mine, t, p`sanitMapped, p`sanitUnmapped
      ensures p.Counted() && t.Valid() && t.S() == Tlb.Step(old(t.S()), Tlb.Reap) && forall i :: 0 <= i < |t.queue| ==> t.queue[i].waitAcks > 0
      ensures p.L() == Reaped(old(p.L()), old(t.S()), old(mine)) && mine == old(mine)[Tlb.Ready(old(t.queue))..]
    {
      var q := Tlb.Blocks(t.queue);
      t.ReapQueue();
      var n := |q| - |t.queue|;
      UnmapAll(q, n);
      mine := mine[n..];
    }

    /** Unmaps the process's own among the first `n` blocks of the queue. */
    method UnmapAll(q: seq<Block>, n: nat)
      requires p.Counted() && n <= |q| == |mine|
      requires forall i: nat {:trigger Waiting(p.L(), q, mine, i)} :: i < n ==> Waiting(p.L(), q, mine, i)
      modifies p`sanitMapped, p`sanitUnmapped
      ensures p.Counted() && p.L() == UnmappedTo(old(p.L()), q, mine, n)
    {
      var i := 0;
      while i < n
        invariant 0 <= i <= n && p.Counted() && p.L() == UnmappedTo(old(p.L()), q, mine, i)
      {
        assert old(Waiting(p.L(), q, mine, i));
        if mine[i] {
          Unmap(q[i]);
        }
        i := i + 1;
      }
    }
  }

  function FindBlock(s: seq<Block>, b: Block): (i: nat)
    ensures i <= |s| && (i < |s| ==> s[i] == b) && b !in s[..i]
  {
    if s == [] || s[0] == b then 0 else 1 + FindBlock(s[1..], b)
  }

  lemma {:induction false} FirstIs(s: seq<Block>, b: Block, i: nat)
    requires i < |s| && s[i] == b && b !in s[..i]
    ensures FindBlock(s, b) == i
  {
    if i > 0 {
      assert s[0] in s[..i];
      assert s[1..][..i - 1] == s[..i][1..];
      FirstIs(s[1..], b, i - 1);
    }
  }

  /** The first block equal to `b` moves from one sanitizing list to the other. */
  ghost function Unmapped(l: Layout, b: Block): Layout
    requires b in l.sanitMapped
  {
    var i := FindBlock(l.sanitMapped, b);
    assert b !in l.sanitMapped[..|l.sanitMapped|] ==> b !in l.sanitMapped;
    l.(sanitMapped := Removed(l.sanitMapped, i), sanitUnmapped := l.sanitUnmapped + [b])
  }

  lemma UnmappedBag(l: Layout, b: Block)
    requires b in l.sanitMapped
    ensures multiset(Unmapped(l, b).sanitMapped) == multiset(l.sanitMapped) - multiset{b}
    ensures Moved(l, Unmapped(l, b), [b])
  {
    RemovedBag(l.sanitMapped, FindBlock(l.sanitMapped, b));
    assert b in multiset(l.sanitMapped);
  }

  lemma UnmappedIfMoves(l: Layout, b: Block, own: bool)
    requires own ==> b in l.sanitMapped
    ensures Moved(l, UnmappedIf(l, b, own), if own then [b] else [])
  {
    if own { UnmappedBag(l, b); } else { assert l.sanitUnmapped + [] == l.sanitUnmapped; }
  }

  lemma MovedNext(l: Layout, m: Layout, b: Block, own: bool, asked: seq<Block>, owned: seq<bool>, first: nat, j: nat, k: nat)
    requires first <= j < k == j + 1 <= |asked| == |owned| && b == asked[j] && own == owned[j] && (own ==> b in m.sanitMapped)
    requires Moved(l, m, OwnBetween(asked, owned, first, j))
    ensures Moved(l, UnmappedIf(m, b, own), OwnBetween(asked, owned, first, k))
  {
    UnmappedIfMoves(m, b, own);
    OwnNext(asked, owned, first, j, k);
    MovedTwice(l, m, UnmappedIf(m, b, own), OwnBetween(asked, owned, first, j), if own then [b] else []);
  }

  lemma OwnNext(asked: seq<Block>, owned: seq<bool>, m: nat, j: nat, k: nat)
    requires m <= j < k == j + 1 <= |asked| == |owned|
    ensures OwnBetween(asked, owned, m, k) == OwnBetween(asked, owned, m, j) + if owned[j] then [asked[j]] else []
  {
  }

  /** What the first `n` blocks of the queue have moved. */
  lemma {:induction false} UnmappedToMoves(l: Layout, q: seq<Block>, mine: seq<bool>, n: nat, asked: seq<Block>, owned: seq<bool>, first: nat, k: nat)
    requires n <= |q| && k == first + n && Suffix(q, mine, asked, owned, first)
    requires forall i: nat {:trigger Waiting(l, q, mine, i)} :: i < n ==> Waiting(l, q, mine, i)
    ensures Moved(l, UnmappedTo(l, q, mine, n), OwnBetween(asked, owned, first, k))
  {
    if n == 0 {
      assert l.sanitUnmapped + [] == l.sanitUnmapped;
    } else {
      var j := k - 1;
      UnmappedToMoves(l, q, mine, n - 1, asked, owned, first, j);
      assert q[n - 1] == asked[j] && mine[n - 1] == owned[j] && Waiting(l, q, mine, n - 1);
      MovedNext(l, UnmappedTo(l, q, mine, n - 1), q[n - 1], mine[n - 1], asked, owned, first, j, k);
    }
  }

  lemma UnmappedOk(l: Layout, b: Block, lo: int, hi: int)
    requires b in l.sanitMapped && l.Ok(lo, hi)
    ensures Unmapped(l, b).Ok(lo, hi)
  {
    MappedToUnmapped(l, FindBlock(l.sanitMapped, b), lo, hi);
  }

  /** Block `b` is done with, if it is the process's own. */
  ghost function UnmappedIf(l: Layout, b: Block, own: bool): Layout {
    if own && b in l.sanitMapped then Unmapped(l, b) else l
  }

  /** After the first `n` blocks of a queue. */
  ghost function UnmappedTo(l: Layout, q: seq<Block>, mine: seq<bool>, n: nat): Layout
    requires n <= |q| == |mine|
  {
    if n == 0 then l else UnmappedIf(UnmappedTo(l, q, mine, n - 1), q[n - 1], mine[n - 1])
  }

  /** By the time block `i` of the queue is looked at, it waits if it is the process's own. */
  ghost predicate Waiting(l: Layout, q: seq<Block>, mine: seq<bool>, i: nat)
    requires i < |q| == |mine|
  {
    mine[i] ==> q[i] in UnmappedTo(l, q, mine, i).sanitMapped
  }

  /** The property `ok` of layouts survives when a waiting block moves on. */
  ghost predicate Lasting(ok: Layout -> bool) {
    forall l: Layout, b: Block {:trigger ok(l), Unmapped(l, b)} :: b in l.sanitMapped && ok(l) ==> ok(Unmapped(l, b))
  }

  lemma UnmapStep(l: Layout, b: Block, own: bool, asked: seq<Block>, owned: seq<bool>, k: nat, next: nat, ok: Layout -> bool)
    requires ok(l) && Lasting(ok) && Linked(l.sanitMapped, asked, owned, k) && k < |asked| && next == k + 1
    requires b == asked[k] && own == owned[k]
    ensures var m := UnmappedIf(l, b, own); ok(m) && Linked(m.sanitMapped, asked, owned, next)
  {
    var m := UnmappedIf(l, b, own);
    if own {
      LinkedHead(l.sanitMapped, asked, owned, k);
      UnmappedBag(l, b);
    }
    LinkedNext(l.sanitMapped, m.sanitMapped, asked, owned, k, next);
  }

  /** The queue `q` with its marks `mine` is what was asked from `first` on. */
  ghost predicate Suffix(q: seq<Block>, mine: seq<bool>, asked: seq<Block>, owned: seq<bool>, first: nat) {
    && first + |q| == |asked| == |owned| && |mine| == |q|
    && forall i: nat {:trigger q[i]} {:trigger mine[i]} :: i < |q| ==> q[i] == asked[first + i] && mine[i] == owned[first + i]
  }

  /** The layout after `n` blocks of the queue, when the requests from `k` on are left. */
  lemma {:induction false} UnmappedToOk(l: Layout, q: seq<Block>, mine: seq<bool>, n: nat,
                                        asked: seq<Block>, owned: seq<bool>, first: nat, k: nat, ok: Layout -> bool)
    requires ok(l) && Lasting(ok) && Linked(l.sanitMapped, asked, owned, first) && Suffix(q, mine, asked, owned, first)
    requires n <= |q| && k == first + n
    ensures var m := UnmappedTo(l, q, mine, n); ok(m) && Linked(m.sanitMapped, asked, owned, k)
  {
    if n > 0 {
      var j := k - 1;
      UnmappedToOk(l, q, mine, n - 1, asked, owned, first, j, ok);
      UnmapStep(UnmappedTo(l, q, mine, n - 1), q[n - 1], mine[n - 1], asked, owned, j, k, ok);
    }
  }

  lemma OwnIsMapped(l: Layout, q: seq<Block>, mine: seq<bool>, i: nat, asked: seq<Block>, owned: seq<bool>, first: nat, k: nat)
    requires Linked(l.sanitMapped, asked, owned, first) && Suffix(q, mine, asked, owned, first) && i < |q| && k == first + i
    ensures Waiting(l, q, mine, i)
  {
    UnmappedToOk(l, q, mine, i, asked, owned, first, k, _ => true);
    assert q[i] == asked[k] && mine[i] == owned[k];
    if owned[k] { LinkedHead(UnmappedTo(l, q, mine, i).sanitMapped, asked, owned, k); }
  }

  lemma QueueIsSuffix(s: Tlb.State, mine: seq<bool>, owned: seq<bool>)
    requires Tlb.Inv(s) && |owned| == |s.asked| && mine == owned[|s.released|..]
    ensures Suffix(Tlb.Blocks(s.queue), mine, s.asked, owned, |s.released|)
  {
    forall i: nat | i < |s.queue| ensures s.queue[i].block == s.asked[|s.released| + i] { assert Tlb.Queued(s, i); }
  }

  /** Every own block that a reap takes off the queue is on the list of blocks to sanitize. */
  ghost predicate Ready(l: Layout, s: Tlb.State, mine: seq<bool>)
    requires |mine| == |s.queue|
  {
    forall i: nat {:trigger Waiting(l, Tlb.Blocks(s.queue), mine, i)} :: i < Tlb.Ready(s.queue) ==> Waiting(l, Tlb.Blocks(s.queue), mine, i)
  }

  /** The layout after a reap. */
  ghost function Reaped(l: Layout, s: Tlb.State, mine: seq<bool>): Layout
    requires |mine| == |s.queue|
  {
    UnmappedTo(l, Tlb.Blocks(s.queue), mine, Tlb.Ready(s.queue))
  }

  /** A reap and the moves that go with it keep everything right. */
  lemma ReapKeeps(l: Layout, s: Tlb.State, mine: seq<bool>, owned: seq<bool>, ok: Layout -> bool)
    requires ok(l) && Lasting(ok) && Tlb.Inv(s) && Tied(l.sanitMapped, s, mine, owned)
    ensures |mine| == |s.queue| && Ready(l, s, mine)
    ensures var m, s' := Reaped(l, s, mine), Tlb.Step(s, Tlb.Reap);
      && ok(m) && Tied(m.sanitMapped, s', mine[Tlb.Ready(s.queue)..], owned) && |s'.released| <= |s.asked|
      && Moved(l, m, OwnBetween(s.asked, owned, |s.released|, |s'.released|))
  {
    var q, first, n := Tlb.Blocks(s.queue), |s.released|, Tlb.Ready(s.queue);
    var last := |Tlb.Step(s, Tlb.Reap).released|;
    QueueIsSuffix(s, mine, owned);
    UnmappedToOk(l, q, mine, n, s.asked, owned, first, last, ok);
    forall i: nat | i < n ensures Waiting(l, q, mine, i) { OwnIsMapped(l, q, mine, i, s.asked, owned, first, first + i); }
    UnmappedToMoves(l, q, mine, n, s.asked, owned, first, last);
    assert mine[n..] == owned[last..];
  }

  ghost function OkIn(lo: int, hi: int): Layout -> bool { (l: Layout) => l.Ok(lo, hi) }

  lemma OkLasts(lo: int, hi: int)
    ensures Lasting(OkIn(lo, hi))
  {
    forall l: Layout, b: Block | b in l.sanitMapped && OkIn(lo, hi)(l) ensures OkIn(lo, hi)(Unmapped(l, b)) { UnmappedOk(l, b, lo, hi); }
  }

  /** Block `j` leaves use and joins the list of blocks to sanitize. */
  ghost function Retired(l: Layout, j: nat): Layout
    requires j < |l.inuse|
  {
    var b := l.inuse[j];
    l.(inuse := Removed(l.inuse, j), sanitMapped := Inserted(l.sanitMapped, SortedPlace(l.sanitMapped, b), b))
  }

  /** With no stack waiting for reuse, it is the freed block itself that is to be sanitized. */
  lemma FreedIsRetired(l: Layout, j: nat)
    requires j < |l.inuse| && l.reuse == []
    ensures FreedFromUse(l, j) == Retired(l, j) && AddressSpace.Queued(l.reuse, l.inuse[j])[0] == l.inuse[j]
    ensures multiset(Retired(l, j).sanitMapped) == multiset(l.sanitMapped) + multiset{l.inuse[j]}
  {
    var b := l.inuse[j];
    DropLast(l.flight, b);
    assert (l.flight + [b])[|l.flight|] == b;
    assert AddressSpace.Queued(l.reuse, b) == [b];
    InsertedBag(l.sanitMapped, SortedPlace(l.sanitMapped, b), b);
  }

  /** The CPUs that have served have invalidated everything that was asked. */
  ghost predicate UpToDate(seen: seq<seq<Block>>, asked: seq<Block>, served: seq<nat>) {
    forall c: nat :: c < |seen| && c in served ==> seen[c] == asked
  }

  lemma OneMoreServed(seen: seq<seq<Block>>, asked: seq<Block>, schedule: seq<nat>, i: nat)
    requires i < |schedule| && schedule[i] < |seen| && UpToDate(seen, asked, schedule[..i])
    ensures UpToDate(seen[schedule[i] := asked], asked, schedule[..i + 1])
  {
    assert schedule[..i + 1] == schedule[..i] + [schedule[i]];
  }

  lemma AllServed(seen: seq<seq<Block>>, asked: seq<Block>, schedule: seq<nat>, i: nat)
    requires i == |schedule| && UpToDate(seen, asked, schedule[..i]) && forall c: nat :: c < |seen| ==> c in schedule
    ensures forall c: nat :: c < |seen| ==> seen[c] == asked
  {
    assert schedule[..i] == schedule;
  }

  lemma MovedAll(l: Layout, m: Layout, bs: seq<Block>)
    requires Moved(l, m, bs) && m.sanitMapped == []
    ensures forall b :: b in l.sanitMapped || b in l.sanitUnmapped ==> b in m.sanitUnmapped
  {
    assert multiset(bs) == multiset(l.sanitMapped);
    forall b | b in l.sanitMapped ensures b in bs { assert b in multiset(l.sanitMapped); }
  }

  /** Some available block holds address `a`. */
  ghost predicate Offered(avail: seq<Block>, a: int) { exists x :: x in avail && Has(x.r, a) }

  /** What was sanitized is available once the list of sanitized blocks is empty. */
  lemma BackInAvail(l: Layout, l': Layout, b: Block, a: int, lo: int, hi: int)
    requires l.Ok(lo, hi) && l'.Ok(lo, hi) && l' == l.(avail := l'.avail, sanitUnmapped := []) && b in l.sanitUnmapped && Has(b.r, a)
    ensures Offered(l'.avail, a)
  {
    var m, m' := Bag(l.avail) + l.Busy(), Bag(l'.avail) + l'.Busy();
    InBag(l.sanitUnmapped, b);
    assert m[b.r] == 1;
    assert Covered(m', a);
    var r :| r in m' && Has(r, a);
    var rest := Bag(l.inuse) + Bag(l.reuse) + Bag(l.sanitMapped) + Bag(l.flight);
    assert l.Busy() == rest + Bag(l.sanitUnmapped) && l'.Busy() == rest + Bag(l'.sanitUnmapped);
    assert Spans(l'.sanitUnmapped) == [];
    assert r in rest ==> r in m && (r == b.r ==> m[r] > 1) && (r != b.r ==> !Clear(r, b.r));
    assert r in Bag(l'.avail);
    FromBag(l'.avail, r);
  }

  lemma FromBag(s: seq<Block>, r: Range)
    requires r in Bag(s)
    ensures exists x :: x in s && x.r == r
  {
    var i :| 0 <= i < |Spans(s)| && Spans(s)[i] == r;
    assert s[i] in s;
  }

}
