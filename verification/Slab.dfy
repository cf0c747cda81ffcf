/** The structure allocator: buckets of equal blocks, a chain of free blocks through each bucket,
    and a list of the buckets that are neither full nor empty. */
module Slab {
  import opened Common
  import opened Pow2
  import PageFrames

  const NULL: int := 0

  const END: int := -1

  datatype BucketState = EmptyBucket | PartialBucket | FullBucket

  /** Free blocks are chained by index: `block` is the first, `links[i]` the one after block `i`. */
  datatype Bucket = Bucket(prev: int, next: int, state: BucketState, entries: nat, avail: int,
                           block: int, links: seq<int>)

  /** An allocator object and its buckets, by address. */
  datatype Slab = Slab(blockCount: nat, pageCount: nat, head: int, count: int, buckets: map<int, Bucket>,
                       numPages: int, numActive: int)

  // ---------------------------------------------------------------- steps

  function NewBucket(n: nat): Bucket {
    Bucket(NULL, NULL, EmptyBucket, n, n, n - 1, seq(n, i => i - 1))
  }

  function InsertBucket(s: Slab, b: int): Slab
    requires b in s.buckets
  {
    var t := s.(buckets := s.buckets[b := s.buckets[b].(next := s.head, prev := NULL)], head := b, count := s.count + 1);
    if s.head in t.buckets && s.head != NULL then t.(buckets := t.buckets[s.head := t.buckets[s.head].(prev := b)]) else t
  }

  function RemoveBucket(s: Slab, b: int): Slab
    requires b in s.buckets
  {
    var p, n := s.buckets[b].prev, s.buckets[b].next;
    var t := s.(count := s.count - 1);
    var u := if p == NULL then t.(head := n)
             else if p in t.buckets then t.(buckets := t.buckets[p := t.buckets[p].(next := n)]) else t;
    if n != NULL && n in u.buckets then u.(buckets := u.buckets[n := u.buckets[n].(prev := p)]) else u
  }

  function PopBlock(k: Bucket): Bucket
    requires 0 <= k.block < |k.links|
  {
    k.(block := k.links[k.block], avail := k.avail - 1, links := k.links[k.block := END])
  }

  function PushBlock(k: Bucket, i: nat): Bucket
    requires i < |k.links|
  {
    k.(block := i, avail := k.avail + 1, links := k.links[i := k.block])
  }

  /** The bucket to allocate from: the first partial one, or a new one at `room`. */
  function Obtain(s: Slab, room: int): Slab {
    if s.count == 0 && room != NULL then
      s.(buckets := s.buckets[room := NewBucket(s.blockCount)], numPages := s.numPages + s.pageCount)
    else s
  }

  /** Takes a block from bucket `b` and keeps the list of partial buckets up to date. */
  function TakeFrom(s: Slab, b: int): Slab
    requires b in s.buckets && 0 <= s.buckets[b].block < |s.buckets[b].links|
  {
    var k := PopBlock(s.buckets[b]);
    var t := s.(buckets := s.buckets[b := k], numActive := s.numActive + 1);
    if k.avail == 0 then RemoveBucket(t.(buckets := t.buckets[b := k.(state := FullBucket)]), b)
    else if k.avail == k.entries - 1 then InsertBucket(t.(buckets := t.buckets[b := k.(state := PartialBucket)]), b)
    else t
  }

  /** Returns block `i` to bucket `b`. */
  function GiveTo(s: Slab, b: int, i: nat): Slab
    requires b in s.buckets && i < |s.buckets[b].links|
  {
    var k := PushBlock(s.buckets[b], i);
    var t := s.(buckets := s.buckets[b := k], numActive := s.numActive - 1);
    if k.avail == k.entries then
      var u := RemoveBucket(t.(buckets := t.buckets[b := k.(state := EmptyBucket)]), b);
      u.(buckets := u.buckets - {b}, numPages := u.numPages - u.pageCount)
    else if k.avail == 1 then InsertBucket(t.(buckets := t.buckets[b := k.(state := PartialBucket)]), b)
    else t
  }

  // ---------------------------------------------------------------- invariant

  function At(order: seq<int>, i: int): int { if 0 <= i < |order| then order[i] else NULL }

  /** The place of a bucket in the list of partial ones. */
  ghost predicate LinkOk(s: Slab, order: seq<int>, i: nat)
    requires i < |order|
  {
    && order[i] != NULL && order[i] in s.buckets
    && s.buckets[order[i]].next == At(order, i + 1) && s.buckets[order[i]].prev == At(order, i - 1)
  }

  ghost predicate Distinct(order: seq<int>) { forall i, j :: 0 <= i < j < |order| ==> order[i] != order[j] }

  ghost predicate ListOk(s: Slab, order: seq<int>) {
    && s.count == |order| && s.head == At(order, 0) && Distinct(order)
    && forall i: nat {:trigger LinkOk(s, order, i)} :: i < |order| ==> LinkOk(s, order, i)
  }

  /** The blocks from `first` on, following the links. */
  ghost predicate Chain(links: seq<int>, first: int, c: seq<int>)
    decreases |c|
  {
    if c == [] then first == END
    else first == c[0] && 0 <= first < |links| && Chain(links, links[first], c[1..])
  }

  /** A bucket and its free blocks. */
  ghost predicate BucketOk(k: Bucket, c: seq<int>) {
    && |k.links| == k.entries && k.avail == |c| && Distinct(c) && Chain(k.links, k.block, c)
    && k.state == if k.avail == 0 then FullBucket else PartialBucket
  }

  /** Everything but the place in the list. */
  ghost predicate SameBlocks(k: Bucket, h: Bucket) { h == k.(prev := h.prev, next := h.next) }

  ghost predicate BucketsSame(s: Slab, t: Slab) {
    && s.buckets.Keys == t.buckets.Keys
    && forall b {:trigger t.buckets[b]} {:trigger s.buckets[b]} :: b in s.buckets ==> SameBlocks(s.buckets[b], t.buckets[b])
  }

  /** A bucket is partial exactly if it is in the list; an empty one is given back at once. */
  ghost predicate Good(s: Slab, order: seq<int>, chains: map<int, seq<int>>, b: int)
    requires b in s.buckets && b in chains
  {
    && b != NULL && s.buckets[b].entries == s.blockCount && BucketOk(s.buckets[b], chains[b])
    && s.buckets[b].avail < s.blockCount && (b in order <==> s.buckets[b].avail > 0)
  }

  predicate IsLive(s: Slab, chains: map<int, seq<int>>, o: (int, int)) {
    o.0 in s.buckets && o.0 in chains && 0 <= o.1 < s.blockCount && o.1 !in chains[o.0]
  }

  /** `live` are the objects that are allocated, by bucket and index. */
  ghost predicate LiveOk(s: Slab, chains: map<int, seq<int>>, live: set<(int, int)>) {
    s.numActive == |live| && forall o: (int, int) {:trigger IsLive(s, chains, o)} :: o in live <==> IsLive(s, chains, o)
  }

  ghost predicate AllGood(s: Slab, order: seq<int>, chains: map<int, seq<int>>) {
    && chains.Keys == s.buckets.Keys
    && forall b {:trigger Good(s, order, chains, b)} :: b in s.buckets ==> Good(s, order, chains, b)
  }

  ghost predicate Consistent(s: Slab, order: seq<int>, chains: map<int, seq<int>>, live: set<(int, int)>) {
    && s.blockCount > 1 && ListOk(s, order) && AllGood(s, order, chains)
    && s.numPages == s.pageCount * |s.buckets| && LiveOk(s, chains, live)
  }

  // ---------------------------------------------------------------- the list of partial buckets

  lemma InsertList(s: Slab, order: seq<int>, b: int)
    requires ListOk(s, order) && b in s.buckets && b != NULL && b !in order
    ensures ListOk(InsertBucket(s, b), [b] + order) && BucketsSame(s, InsertBucket(s, b))
  {
    var t, r := InsertBucket(s, b), [b] + order;
    assert order != [] ==> LinkOk(s, order, 0);
    forall i: nat | i < |r| ensures LinkOk(t, r, i) {
      if i > 0 { assert LinkOk(s, order, i - 1); }
    }
  }

  lemma RemoveList(s: Slab, order: seq<int>, i: nat)
    requires ListOk(s, order) && i < |order|
    ensures order[i] in s.buckets && ListOk(RemoveBucket(s, order[i]), Removed(order, i))
    ensures BucketsSame(s, RemoveBucket(s, order[i])) && order[i] !in Removed(order, i)
    ensures forall b :: b != order[i] ==> (b in Removed(order, i) <==> b in order)
  {
    assert LinkOk(s, order, i);
    assert i > 0 ==> LinkOk(s, order, i - 1);
    assert i + 1 < |order| ==> LinkOk(s, order, i + 1);
    var t, r := RemoveBucket(s, order[i]), Removed(order, i);
    forall j: nat | j < |r| ensures LinkOk(t, r, j) { assert LinkOk(s, order, if j < i then j else j + 1); }
    forall b | b != order[i] ensures b in r <==> b in order { InWithout(order, i, b); }
  }

  lemma InWithout(order: seq<int>, i: nat, b: int)
    requires i < |order| && b != order[i]
    ensures b in Removed(order, i) <==> b in order
  {
    if b in order {
      var j: nat :| j < |order| && order[j] == b;
      assert Removed(order, i)[if j < i then j else j - 1] == b;
    }
  }

  // ---------------------------------------------------------------- the chain of free blocks

  lemma {:induction false} ChainFrame(links: seq<int>, first: int, c: seq<int>, i: nat, x: int)
    requires Chain(links, first, c) && i < |links| && i !in c
    ensures Chain(links[i := x], first, c)
    decreases |c|
  {
    if c != [] { ChainFrame(links, links[first], c[1..], i, x); }
  }

  lemma PopChain(k: Bucket, c: seq<int>)
    requires |k.links| == k.entries && k.avail == |c| && Distinct(c) && Chain(k.links, k.block, c) && c != []
    ensures 0 <= k.block < |k.links| && k.block == c[0] && c[0] !in c[1..] && Distinct(c[1..])
    ensures Chain(PopBlock(k).links, PopBlock(k).block, c[1..])
  {
    ChainFrame(k.links, k.links[k.block], c[1..], k.block, END);
  }

  lemma PushChain(k: Bucket, c: seq<int>, i: nat)
    requires Distinct(c) && Chain(k.links, k.block, c) && i < |k.links| && i !in c
    ensures Distinct([i] + c) && Chain(PushBlock(k, i).links, PushBlock(k, i).block, [i] + c)
  {
    ChainFrame(k.links, k.block, c, i, k.block);
    assert ([i] + c)[1..] == c;
  }

  /** The blocks of a new bucket are chained from the last to the first. */
  ghost function Downto(n: nat): seq<int> { seq(n, i => n - 1 - i) }

  lemma {:induction false} DownChain(links: seq<int>, n: nat)
    requires n <= |links| && forall i :: 0 <= i < |links| ==> links[i] == i - 1
    ensures Chain(links, n - 1, Downto(n))
  {
    if n > 0 {
      DownChain(links, n - 1);
      assert Downto(n)[1..] == Downto(n - 1);
    }
  }

  lemma {:induction false} ChainInRange(links: seq<int>, first: int, c: seq<int>, j: nat)
    requires Chain(links, first, c) && j < |c|
    ensures 0 <= c[j] < |links|
    decreases |c|
  {
    if j > 0 { ChainInRange(links, links[first], c[1..], j - 1); }
  }

  ghost predicate Below(c: seq<int>, n: nat) { forall j :: 0 <= j < |c| ==> 0 <= c[j] < n }

  lemma {:induction false} Pigeons(c: seq<int>, n: nat)
    requires Distinct(c) && Below(c, n)
    ensures |c| <= n
    decreases n
  {
    assert |c| > 0 ==> 0 <= c[0] < n;
    if n > 0 {
      if n - 1 in c {
        var j: nat :| j < |c| && c[j] == n - 1;
        Pigeons(Removed(c, j), n - 1);
      } else {
        Pigeons(c, n - 1);
      }
    }
  }

  /** As many different indices as there are: all of them. */
  lemma {:induction false} AllPigeons(c: seq<int>, n: nat, i: nat)
    requires Distinct(c) && Below(c, n) && |c| == n && i < n
    ensures i in c
    decreases n
  {
    if n - 1 !in c { Pigeons(c, n - 1); }
    if i < n - 1 {
      var j: nat :| j < |c| && c[j] == n - 1;
      AllPigeons(Removed(c, j), n - 1, i);
      InWithout(c, j, i);
    }
  }

  // ---------------------------------------------------------------- live objects

  /** Taking index `i` out of the chain of `b` makes one more object live. */
  lemma OneMoreLive(s: Slab, chains: map<int, seq<int>>, live: set<(int, int)>, t: Slab, b: int, c: seq<int>, i: int)
    requires LiveOk(s, chains, live) && chains.Keys == s.buckets.Keys
    requires t.numActive == s.numActive + 1 && t.blockCount == s.blockCount && t.buckets.Keys == s.buckets.Keys + {b}
    requires 0 <= i < s.blockCount && i !in c && !IsLive(s, chains, (b, i))
    requires forall j :: 0 <= j < s.blockCount && j != i ==> (j in c <==> !IsLive(s, chains, (b, j)))
    ensures LiveOk(t, chains[b := c], live + {(b, i)}) && (b, i) !in live
  {
    forall o: (int, int) ensures IsLive(t, chains[b := c], o) <==> o in live || o == (b, i) {
      assert o == (o.0, o.1) && (o in live <==> IsLive(s, chains, o));
      if o.0 == b && 0 <= o.1 < s.blockCount && o.1 != i { assert o.1 in c <==> !IsLive(s, chains, (b, o.1)); }
    }
  }

  // ---------------------------------------------------------------- every operation keeps the invariant

  /** Changing a bucket's blocks leaves the list as it is. */
  lemma BlocksKeepList(s: Slab, order: seq<int>, b: int, k: Bucket, n: int)
    requires ListOk(s, order) && b in s.buckets && k.prev == s.buckets[b].prev && k.next == s.buckets[b].next
    ensures ListOk(s.(buckets := s.buckets[b := k], numActive := n), order)
  {
    var t := s.(buckets := s.buckets[b := k], numActive := n);
    forall i: nat | i < |order| ensures LinkOk(t, order, i) { assert LinkOk(s, order, i); }
  }

  /** Buckets that the change did not touch stay good. */
  lemma OthersGood(s: Slab, order: seq<int>, chains: map<int, seq<int>>, t: Slab, r: seq<int>, after: map<int, seq<int>>, b: int)
    requires AllGood(s, order, chains) && t.blockCount == s.blockCount && t.buckets.Keys == after.Keys
    requires forall x {:trigger t.buckets[x]} :: x in t.buckets && x != b ==>
      x in s.buckets && SameBlocks(s.buckets[x], t.buckets[x]) && after[x] == chains[x] && (x in r <==> x in order)
    requires b in t.buckets ==> Good(t, r, after, b)
    ensures AllGood(t, r, after)
  {
    forall x | x in t.buckets ensures Good(t, r, after, x) {
      if x != b {
        assert SameBlocks(s.buckets[x], t.buckets[x]);
        assert Good(s, order, chains, x);
      }
    }
  }

  /** The first partial bucket, its first block taken: it stays where it is or leaves the list. */
  ghost function Popped(s: Slab, b: int, last: bool): Slab
    requires b in s.buckets && 0 <= s.buckets[b].block < |s.buckets[b].links|
  {
    var h := PopBlock(s.buckets[b]).(state := if last then FullBucket else PartialBucket);
    s.(buckets := s.buckets[b := h], numActive := s.numActive + 1)
  }

  lemma TakeOldList(s: Slab, order: seq<int>, b: int, last: bool)
    requires ListOk(s, order) && order != [] && b == order[0] && b in s.buckets && 0 <= s.buckets[b].block < |s.buckets[b].links|
    requires s.buckets[b].state == PartialBucket && s.buckets[b].avail < s.buckets[b].entries
    requires last <==> s.buckets[b].avail == 1
    ensures ListOk(TakeFrom(s, b), if last then order[1..] else order)
    ensures BucketsSame(Popped(s, b, last), TakeFrom(s, b))
    ensures var t := TakeFrom(s, b); t == s.(head := t.head, count := t.count, buckets := t.buckets, numActive := s.numActive + 1)
    ensures forall h :: h != b ==> (h in (if last then order[1..] else order) <==> h in order)
    ensures last ==> b !in order[1..]
  {
    var u := Popped(s, b, last);
    BlocksKeepList(s, order, b, u.buckets[b], s.numActive + 1);
    if last {
      RemoveList(u, order, 0);
      assert Removed(order, 0) == order[1..];
      assert TakeFrom(s, b) == RemoveBucket(u, b);
    } else {
      assert TakeFrom(s, b) == u;
    }
  }

  lemma TakeOldGood(s: Slab, order: seq<int>, chains: map<int, seq<int>>, b: int, c: seq<int>)
    requires ListOk(s, order) && AllGood(s, order, chains) && order != [] && b == order[0] && b in chains && c == chains[b]
    ensures b in s.buckets && c != [] && 0 <= s.buckets[b].block < |s.buckets[b].links| && c[0] == s.buckets[b].block
    ensures c[0] !in c[1..] && 0 <= c[0] < s.blockCount
    ensures var t, r := TakeFrom(s, b), if |c| == 1 then order[1..] else order;
      ListOk(t, r) && AllGood(t, r, chains[b := c[1..]]) && t.buckets.Keys == s.buckets.Keys
    ensures var t := TakeFrom(s, b); t == s.(head := t.head, count := t.count, buckets := t.buckets, numActive := s.numActive + 1)
  {
    assert LinkOk(s, order, 0);
    assert Good(s, order, chains, b);
    PopChain(s.buckets[b], c);
    TakeOldList(s, order, b, |c| == 1);
    var t, u := TakeFrom(s, b), Popped(s, b, |c| == 1);
    assert SameBlocks(u.buckets[b], t.buckets[b]);
    OthersGood(s, order, chains, t, if |c| == 1 then order[1..] else order, chains[b := c[1..]], b);
  }

  /** Allocating from the first partial bucket. */
  lemma TakeOldKeeps(s: Slab, order: seq<int>, chains: map<int, seq<int>>, live: set<(int, int)>, b: int, c: seq<int>)
    requires Consistent(s, order, chains, live) && s.count != 0 && b == s.head && b in chains && c == chains[b]
    ensures b in s.buckets && c != [] && 0 <= s.buckets[b].block < |s.buckets[b].links| && c[0] == s.buckets[b].block
    ensures Consistent(TakeFrom(s, b), if |c| == 1 then order[1..] else order, chains[b := c[1..]], live + {(b, c[0])})
    ensures (b, c[0]) !in live
  {
    TakeOldGood(s, order, chains, b, c);
    assert c == [c[0]] + c[1..];
    OneMoreLive(s, chains, live, TakeFrom(s, b), b, c[1..], c[0]);
  }

  // ---------------------------------------------------------------- a new bucket

  lemma TakeNewList(s: Slab, order: seq<int>, b: int)
    requires ListOk(s, order) && s.count == 0 && b != NULL && b !in s.buckets && s.blockCount > 1
    ensures var o := Obtain(s, b);
      && b in o.buckets && 0 <= o.buckets[b].block < |o.buckets[b].links|
      && ListOk(TakeFrom(o, b), [b]) && BucketsSame(Popped(o, b, false), TakeFrom(o, b))
      && TakeFrom(o, b) == o.(head := b, count := 1, buckets := TakeFrom(o, b).buckets, numActive := s.numActive + 1)
  {
    var o := Obtain(s, b);
    var u := Popped(o, b, false);
    assert order == [] && ListOk(u, []);
    InsertList(u, [], b);
    assert [b] + [] == [b];
    assert TakeFrom(o, b) == InsertBucket(u, b);
  }

  lemma NewChain(n: nat)
    requires n > 1
    ensures BucketOk(PopBlock(NewBucket(n)).(state := PartialBucket), Downto(n)[1..]) && n - 1 !in Downto(n)[1..]
    ensures forall j :: 0 <= j < n - 1 ==> j in Downto(n)[1..]
  {
    DownChain(NewBucket(n).links, n);
    PopChain(NewBucket(n), Downto(n));
    forall j | 0 <= j < n - 1 ensures j in Downto(n)[1..] { assert Downto(n)[1..][n - 2 - j] == j; }
  }

  lemma TakeNewGood(s: Slab, order: seq<int>, chains: map<int, seq<int>>, b: int)
    requires s.blockCount > 1 && ListOk(s, order) && AllGood(s, order, chains) && s.count == 0 && b != NULL && b !in s.buckets
    ensures var o := Obtain(s, b); b in o.buckets && 0 <= o.buckets[b].block < |o.buckets[b].links|
    ensures var o := Obtain(s, b);
      ListOk(TakeFrom(o, b), [b]) && AllGood(TakeFrom(o, b), [b], chains[b := Downto(s.blockCount)[1..]])
    ensures var t := TakeFrom(Obtain(s, b), b);
      t == s.(head := b, count := 1, buckets := t.buckets, numActive := s.numActive + 1, numPages := s.numPages + s.pageCount)
      && t.buckets.Keys == s.buckets.Keys + {b}
  {
    var o, c := Obtain(s, b), Downto(s.blockCount)[1..];
    TakeNewList(s, order, b);
    NewChain(s.blockCount);
    var t, u := TakeFrom(o, b), Popped(o, b, false);
    assert SameBlocks(u.buckets[b], t.buckets[b]);
    OthersGood(s, order, chains, t, [b], chains[b := c], b);
  }

  /** Allocating when no bucket is partial: a new bucket, less its last block. */
  lemma TakeNewKeeps(s: Slab, order: seq<int>, chains: map<int, seq<int>>, live: set<(int, int)>, b: int)
    requires Consistent(s, order, chains, live) && s.count == 0 && b != NULL && b !in s.buckets
    ensures var o := Obtain(s, b); b in o.buckets && 0 <= o.buckets[b].block < |o.buckets[b].links|
    ensures Consistent(TakeFrom(Obtain(s, b), b), [b], chains[b := Downto(s.blockCount)[1..]], live + {(b, s.blockCount - 1)})
    ensures (b, s.blockCount - 1) !in live
  {
    TakeNewGood(s, order, chains, b);
    NewChain(s.blockCount);
    var t := TakeFrom(Obtain(s, b), b);
    OneMoreLive(s, chains, live, t, b, Downto(s.blockCount)[1..], s.blockCount - 1);
    OneMoreBucket(s, t, b);
  }

  lemma OneMoreBucket(s: Slab, t: Slab, b: int)
    requires b !in s.buckets && t.buckets.Keys == s.buckets.Keys + {b}
    ensures |t.buckets| == |s.buckets| + 1 && t.pageCount * |t.buckets| == t.pageCount * |s.buckets| + t.pageCount
  {
    assert |t.buckets| == |t.buckets.Keys| && |s.buckets| == |s.buckets.Keys|;
  }

  // ---------------------------------------------------------------- freeing

  /** The bucket with the freed block pushed, in its new state. */
  ghost function Pushed(s: Slab, b: int, i: nat): Slab
    requires b in s.buckets && i < |s.buckets[b].links|
  {
    var k := PushBlock(s.buckets[b], i);
    s.(buckets := s.buckets[b := k.(state := if k.avail == k.entries then EmptyBucket else PartialBucket)], numActive := s.numActive - 1)
  }

  /** The list after a block of bucket `b` is freed. */
  ghost function OrderAfter(s: Slab, order: seq<int>, b: int): seq<int>
    requires b in s.buckets && s.buckets[b].avail >= 0 && (s.buckets[b].avail > 0 ==> b in order)
  {
    if s.buckets[b].avail == 0 then [b] + order
    else if s.buckets[b].avail + 1 == s.buckets[b].entries then Removed(order, IndexOf(order, b))
    else order
  }

  ghost function IndexOf(order: seq<int>, b: int): (i: nat)
    requires b in order
    ensures i < |order| && order[i] == b
  {
    var i: nat :| i < |order| && order[i] == b;
    i
  }

  /** Freeing in a bucket that does not become empty. */
  lemma GiveList(s: Slab, order: seq<int>, b: int, i: nat)
    requires ListOk(s, order) && b in s.buckets && b != NULL && i < |s.buckets[b].links|
    requires (b in order <==> s.buckets[b].avail > 0) && 0 <= s.buckets[b].avail < s.buckets[b].entries - 1
    requires s.buckets[b].state == if s.buckets[b].avail == 0 then FullBucket else PartialBucket
    ensures ListOk(GiveTo(s, b, i), OrderAfter(s, order, b)) && BucketsSame(Pushed(s, b, i), GiveTo(s, b, i))
    ensures var t := GiveTo(s, b, i); t == s.(head := t.head, count := t.count, buckets := t.buckets, numActive := s.numActive - 1)
  {
    var u := Pushed(s, b, i);
    BlocksKeepList(s, order, b, u.buckets[b], s.numActive - 1);
    if s.buckets[b].avail == 0 {
      InsertList(u, order, b);
      assert GiveTo(s, b, i) == InsertBucket(u, b);
    } else {
      assert GiveTo(s, b, i) == u;
    }
  }

  lemma GiveLive(s: Slab, chains: map<int, seq<int>>, live: set<(int, int)>, t: Slab, after: map<int, seq<int>>, b: int, i: int)
    requires LiveOk(s, chains, live) && IsLive(s, chains, (b, i)) && t.numActive == s.numActive - 1
    requires forall o: (int, int) {:trigger IsLive(t, after, o)} :: IsLive(t, after, o) <==> IsLive(s, chains, o) && o != (b, i)
    ensures LiveOk(t, after, live - {(b, i)})
  {
    forall o: (int, int) ensures o in live - {(b, i)} <==> IsLive(t, after, o) {
      assert o in live <==> IsLive(s, chains, o);
    }
    assert (b, i) in live;
  }

  lemma GiveKeeps(s: Slab, order: seq<int>, chains: map<int, seq<int>>, live: set<(int, int)>, b: int, i: nat)
    requires Consistent(s, order, chains, live) && IsLive(s, chains, (b, i)) && |chains[b]| + 1 < s.blockCount
    ensures b in s.buckets && i < |s.buckets[b].links| && s.buckets[b].avail >= 0 && (s.buckets[b].avail > 0 ==> b in order)
    ensures Consistent(GiveTo(s, b, i), OrderAfter(s, order, b), chains[b := [i] + chains[b]], live - {(b, i)})
  {
    assert Good(s, order, chains, b);
    var c := chains[b];
    PushChain(s.buckets[b], c, i);
    GiveList(s, order, b, i);
    var t, u, r, after := GiveTo(s, b, i), Pushed(s, b, i), OrderAfter(s, order, b), chains[b := [i] + c];
    assert SameBlocks(u.buckets[b], t.buckets[b]);
    OthersGood(s, order, chains, t, r, after, b);
    GiveLive(s, chains, live, t, after, b, i);
  }

  lemma DropBucket(s: Slab, order: seq<int>, b: int, n: int)
    requires ListOk(s, order) && b !in order
    ensures ListOk(s.(buckets := s.buckets - {b}, numPages := n), order)
  {
    var t := s.(buckets := s.buckets - {b}, numPages := n);
    forall m: nat | m < |order| ensures LinkOk(t, order, m) { assert LinkOk(s, order, m) && order[m] in order; }
  }

  /** Freeing the last object of a bucket gives the bucket back. */
  lemma GiveLastList(s: Slab, order: seq<int>, b: int, i: nat)
    requires ListOk(s, order) && b in s.buckets && b != NULL && i < |s.buckets[b].links| && b in order
    requires 0 < s.buckets[b].avail == s.buckets[b].entries - 1
    ensures ListOk(GiveTo(s, b, i), OrderAfter(s, order, b)) && GiveTo(s, b, i).buckets.Keys == s.buckets.Keys - {b}
    ensures forall x :: x in GiveTo(s, b, i).buckets ==> SameBlocks(s.buckets[x], GiveTo(s, b, i).buckets[x])
    ensures forall x :: x != b ==> (x in OrderAfter(s, order, b) <==> x in order)
    ensures var t := GiveTo(s, b, i);
      t == s.(head := t.head, count := t.count, buckets := t.buckets, numActive := s.numActive - 1, numPages := s.numPages - s.pageCount)
  {
    var u, j := Pushed(s, b, i), IndexOf(order, b);
    BlocksKeepList(s, order, b, u.buckets[b], s.numActive - 1);
    RemoveList(u, order, j);
    var v, t := RemoveBucket(u, b), GiveTo(s, b, i);
    assert t == v.(buckets := v.buckets - {b}, numPages := v.numPages - v.pageCount);
    DropBucket(v, Removed(order, j), b, t.numPages);
    forall x | x in t.buckets ensures SameBlocks(s.buckets[x], t.buckets[x]) { assert SameBlocks(u.buckets[x], v.buckets[x]); }
  }

  lemma GiveLastKeeps(s: Slab, order: seq<int>, chains: map<int, seq<int>>, live: set<(int, int)>, b: int, i: nat)
    requires Consistent(s, order, chains, live) && IsLive(s, chains, (b, i)) && |chains[b]| + 1 == s.blockCount
    ensures b in s.buckets && i < |s.buckets[b].links| && s.buckets[b].avail >= 0 && (s.buckets[b].avail > 0 ==> b in order)
    ensures Consistent(GiveTo(s, b, i), OrderAfter(s, order, b), chains - {b}, live - {(b, i)})
  {
    assert Good(s, order, chains, b);
    GiveLastList(s, order, b, i);
    var t, r, after := GiveTo(s, b, i), OrderAfter(s, order, b), chains - {b};
    OthersGood(s, order, chains, t, r, after, b);
    forall o: (int, int) ensures IsLive(t, after, o) <==> IsLive(s, chains, o) && o != (b, i) {
      if o.0 == b && IsLive(s, chains, o) { LastObject(s.buckets[b], chains[b], i, o.1); }
    }
    GiveLive(s, chains, live, t, after, b, i);
    assert t.buckets.Keys + {b} == s.buckets.Keys;
    OneMoreBucket(t, s, b);
  }

  lemma LastObject(k: Bucket, c: seq<int>, i: nat, j: int)
    requires BucketOk(k, c) && |c| + 1 == k.entries && i < k.entries && i !in c && 0 <= j < k.entries && j !in c
    ensures j == i
  {
    forall m | 0 <= m < |c| ensures 0 <= c[m] < k.entries { ChainInRange(k.links, k.block, c, m); }
    AllPigeons([i] + c, k.entries, j);
  }

  // ---------------------------------------------------------------- one block per bucket

  /** The bucket a call allocates from; NULL makes the call fail. */
  function Pick(s: Slab, room: int): int { if s.count == 0 then room else s.head }

  /** With two blocks or more an allocation fails only for want of pages. */
  lemma TwoBlocksServe(s: Slab, order: seq<int>, chains: map<int, seq<int>>, live: set<(int, int)>, room: int)
    requires Consistent(s, order, chains, live)
    ensures Pick(s, room) == NULL <==> s.count == 0 && room == NULL
  {
    if s.count != 0 { assert LinkOk(s, order, 0); }
  }

  /** One call: `room` is what the page allocator offers. */
  function Call(s: Slab, room: int): Option<Slab> {
    var b, o := Pick(s, room), Obtain(s, room);
    if b == NULL || b !in o.buckets || !(0 <= o.buckets[b].block < |o.buckets[b].links|) then None else Some(TakeFrom(o, b))
  }

  /** How many of the calls are served. */
  function Served(s: Slab, rooms: seq<int>): nat
    decreases |rooms|
  {
    if rooms == [] then 0
    else match Call(s, rooms[0])
      case None => Served(s, rooms[1..])
      case Some(t) => 1 + Served(t, rooms[1..])
  }

  /** With one block, the first allocation removes a bucket from a list it was never in ... */
  lemma OneBlockBreaks(s: Slab, room: int)
    requires s.blockCount == 1 && s.count == 0 && s.head == NULL && s.buckets == map[] && room != NULL
    ensures Call(s, room).Some? && Call(s, room).value.count == -1 && Call(s, room).value.head == NULL
  {
  }

  /** ... and every call after it fails: however many pages there are, one call in all is served. */
  lemma {:induction false} OneBlockServesOnce(s: Slab, rooms: seq<int>)
    requires s.blockCount == 1 && s.count == 0 && s.head == NULL && s.buckets == map[]
    ensures Served(s, rooms) == if exists i :: 0 <= i < |rooms| && rooms[i] != NULL then 1 else 0
    decreases |rooms|
  {
    if rooms != [] {
      if rooms[0] == NULL {
        OneBlockServesOnce(s, rooms[1..]);
        assert rooms == [NULL] + rooms[1..];
      } else {
        OneBlockBreaks(s, rooms[0]);
        NothingServed(Call(s, rooms[0]).value, rooms[1..]);
      }
    }
  }

  lemma {:induction false} NothingServed(s: Slab, rooms: seq<int>)
    requires s.count == -1 && s.head == NULL
    ensures Served(s, rooms) == 0
    decreases |rooms|
  {
    if rooms != [] { NothingServed(s, rooms[1..]); }
  }

  // ---------------------------------------------------------------- addresses

  const DATA_ALIGNMENT: nat := 8

  /** Sizes that `salloc_create` works out. */
  datatype Layout = Layout(align: nat, magic: nat, blockSize: nat, start: nat, pages: nat, blocks: nat) {
    ghost predicate Fits() {
      align > 0 && blockSize > magic && start + blockSize * blocks <= PAGE_SIZE * pages
    }

    /** Where block `i` of the bucket at `b` begins. */
    function BlockAt(b: int, i: nat): int { b + start + blockSize * i }
  }

  function AlignUpAny(v: nat, align: nat): (r: nat)
    requires align > 0
    ensures v <= r < v + align && r % align == 0
  {
    DivModUnique(align * (v / align + 1), align, v / align + 1, 0);
    assert align * (v / align + 1) == align * (v / align) + align;
    if v % align != 0 then align * (v / align + 1) else v
  }

  /** The least power of two of pages that holds `total` bytes. */
  method PagesFor(total: nat) returns (pages: nat)
    requires total <= PAGE_SIZE * 0x8000
    ensures Enough(pages, total) && forall p: nat {:trigger Enough(p, total)} :: Enough(p, total) ==> pages <= p
  {
    pages := total / PAGE_SIZE;
    if total % PAGE_SIZE != 0 {
      pages := pages + 1;
    }
    var order := PageFrames.PageAllocator.CalcPallocOrder(pages);
    forall k: nat | total <= PAGE_SIZE * Pow(k) ensures Pow(order) <= Pow(k) {
      if k < order { PowMonotone(k, order - 1); } else { PowMonotone(order, k); }
    }
    pages := Pow(order);
  }

  /** A power of two of pages that holds `total` bytes. */
  ghost predicate Enough(pages: nat, total: nat) { total <= PAGE_SIZE * pages && exists k: nat :: pages == Pow(k) }

  /** The size of a block and the offset of the first one. */
  function BlockSizeOf(size: nat, align0: nat, magic: nat): nat { AlignUpAny(size + magic, Or(align0, DATA_ALIGNMENT)) }

  function StartOf(align0: nat, header: nat, magic: nat): (n: nat)
    ensures n >= header
  {
    AlignUpAny(header + magic, Or(align0, DATA_ALIGNMENT)) - magic
  }

  /** Some power of two of pages holds one block after the header but not two. */
  ghost predicate HoldsOneOnly(start: nat, blockSize: nat) {
    exists k: nat :: start + blockSize <= PAGE_SIZE * Pow(k) < start + blockSize + blockSize
  }

  function Or(a: nat, otherwise: nat): nat { if a == 0 then otherwise else a }

  /** `salloc_create`: at least as many blocks as asked for.  There is a single block exactly if one was
      asked for and some power of two of pages holds one block but not two. */
  method SizeUp(size: nat, align0: nat, count0: nat, header: nat, magic: nat) returns (l: Layout)
    requires magic > 0 && size > 0
    requires StartOf(align0, header, magic) + BlockSizeOf(size, align0, magic) * Or(count0, 32) <= PAGE_SIZE * 0x8000
    ensures l.Fits() && l.magic == magic && l.blocks >= Or(count0, 32) && l.align == Or(align0, DATA_ALIGNMENT)
    ensures l.blockSize == BlockSizeOf(size, align0, magic) && l.start == StartOf(align0, header, magic)
    ensures l.blockSize % l.align == 0 && (l.start + magic) % l.align == 0 && l.blockSize >= size + magic
    ensures var total := l.start + l.blockSize * Or(count0, 32);
      Enough(l.pages, total) && forall p: nat {:trigger Enough(p, total)} :: Enough(p, total) ==> l.pages <= p
    ensures l.blocks == 1 <==> count0 == 1 && HoldsOneOnly(StartOf(align0, header, magic), BlockSizeOf(size, align0, magic))
  {
    var align := Or(align0, DATA_ALIGNMENT);
    var blockSize := BlockSizeOf(size, align0, magic);
    var start := StartOf(align0, header, magic);
    var count := Or(count0, 32);
    var pages := PagesFor(start + blockSize * count);
    l := Divide(align, magic, blockSize, start, pages, count);
    if count == 1 {
      assert blockSize * count == blockSize;
      SingleBlock(start, blockSize, pages);
    }
  }

  lemma SingleBlock(start: nat, blockSize: nat, pages: nat)
    requires Enough(pages, start + blockSize)
    requires forall p: nat {:trigger Enough(p, start + blockSize)} :: Enough(p, start + blockSize) ==> pages <= p
    ensures HoldsOneOnly(start, blockSize) <==> PAGE_SIZE * pages < start + blockSize + blockSize
  {
    if k: nat :| start + blockSize <= PAGE_SIZE * Pow(k) < start + blockSize + blockSize {
      assert Enough(Pow(k), start + blockSize);
    }
    var j: nat :| pages == Pow(j);
  }

  /** Objects of 3000 bytes, asked for one by one, with the bucket header and the block header of a
      64-bit machine: a page holds one of them, so a single allocation is ever served. */
  method SingleBlockSlab(rooms: seq<int>) returns (l: Layout)
    ensures l.blocks == 1 && Served(Slab(l.blocks, l.pages, NULL, 0, map[], 0, 0), rooms) <= 1
  {
    assert AlignUpAny(3016, 8) == 3016 && AlignUpAny(64, 8) == 64;
    assert Pow(0) == 1;
    l := SizeUp(3000, 0, 1, 48, 16);
    OneBlockServesOnce(Slab(l.blocks, l.pages, NULL, 0, map[], 0, 0), rooms);
  }

  /** The block count is worked out again from the pages. */
  method Divide(align: nat, magic: nat, blockSize: nat, start: nat, pages: nat, count: nat) returns (l: Layout)
    requires align > 0 && blockSize > magic && start + blockSize * count <= PAGE_SIZE * pages
    ensures l == Layout(align, magic, blockSize, start, pages, l.blocks) && l.Fits() && l.blocks >= count
    ensures l.blocks > 1 <==> blockSize + blockSize <= PAGE_SIZE * pages - start
  {
    BlocksFit(PAGE_SIZE * pages - start, blockSize, count);
    l := Layout(align, magic, blockSize, start, pages, (PAGE_SIZE * pages - start) / blockSize);
  }

  lemma BlocksFit(room: int, size: nat, count: nat)
    requires size > 0 && size * count <= room
    ensures room >= 0 && 0 <= size * (room / size) <= room && count <= room / size && (room / size > 1 <==> size + size <= room)
  {
    MulLe(size, 0, count);
    var q := room / size;
    assert room == size * q + room % size;
    assert size * (q + 1) == size * q + size;
    if q < count { MulLe(size, q + 1, count); }
    if q > 1 { MulLe(size, 2, q); } else { MulLe(size, q, 1); }
  }

  /** Buckets the page allocator gave lie apart. */
  ghost predicate Spaced(s: Slab, l: Layout) {
    forall b, c {:trigger Clear(b, c, PAGE_SIZE * l.pages)} :: b in s.buckets && c in s.buckets && b != c ==> Clear(b, c, PAGE_SIZE * l.pages)
  }

  ghost predicate Clear(a: int, b: int, size: nat) { a + size <= b || b + size <= a }

  lemma BlockOrder(l: Layout, i: nat, j: nat)
    requires i < j
    ensures l.blockSize * i + l.blockSize <= l.blockSize * j
  {
    MulLe(l.blockSize, i + 1, j);
    assert l.blockSize * (i + 1) == l.blockSize * i + l.blockSize;
  }

  /** Objects lie inside their buckets, after the header ... */
  lemma ObjectInBucket(l: Layout, b: int, i: nat)
    requires l.Fits() && i < l.blocks
    ensures b + l.start <= l.BlockAt(b, i) && l.BlockAt(b, i) + l.blockSize <= b + PAGE_SIZE * l.pages
  {
    MulLe(l.blockSize, 0, i);
    BlockOrder(l, i, l.blocks);
  }

  /** ... and no two of them overlap. */
  lemma LiveObjectsDisjoint(s: Slab, order: seq<int>, chains: map<int, seq<int>>, live: set<(int, int)>, l: Layout, x: (int, int), y: (int, int))
    requires Consistent(s, order, chains, live) && l.Fits() && l.blocks == s.blockCount && Spaced(s, l)
    requires x in live && y in live && x != y
    ensures x.1 >= 0 && y.1 >= 0 && Clear(l.BlockAt(x.0, x.1), l.BlockAt(y.0, y.1), l.blockSize)
  {
    assert IsLive(s, chains, x) && IsLive(s, chains, y);
    if x.0 == y.0 {
      assert x == (x.0, x.1) && y == (y.0, y.1);
      if x.1 < y.1 { BlockOrder(l, x.1, y.1); } else { BlockOrder(l, y.1, x.1); }
    } else {
      assert Clear(x.0, y.0, PAGE_SIZE * l.pages);
      ObjectInBucket(l, x.0, x.1);
      ObjectInBucket(l, y.0, y.1);
    }
  }

  /** Objects are aligned if buckets are. */
  lemma ObjectAligned(l: Layout, b: nat, i: nat)
    requires l.align > 0 && b % l.align == 0 && l.blockSize % l.align == 0 && (l.start + l.magic) % l.align == 0
    ensures (l.BlockAt(b, i) + l.magic) % l.align == 0
  {
    var a := l.align;
    var p, q, r := b / a, l.blockSize / a, (l.start + l.magic) / a;
    assert b == a * p && l.blockSize == a * q && l.start + l.magic == a * r;
    assert l.blockSize * i == a * (q * i);
    assert l.BlockAt(b, i) + l.magic == a * (p + r + q * i);
    DivModUnique(l.BlockAt(b, i) + l.magic, a, p + r + q * i, 0);
  }

  // ---------------------------------------------------------------- the code

  class SlabObject {
    const layout: Layout
    var head: int
    var count: int
    var buckets: map<int, Bucket>
    var numPages: int
    var numActive: int

    ghost var order: seq<int>
    ghost var chains: map<int, seq<int>>
    ghost var live: set<(int, int)>

    ghost function S(): Slab
      reads this
    {
      Slab(layout.blocks, layout.pages, head, count, buckets, numPages, numActive)
    }

    ghost predicate Valid()
      reads this
    {
      layout.Fits() && Spaced(S(), layout) && Consistent(S(), order, chains, live)
    }

    constructor (l: Layout)
      requires l.Fits() && l.blocks > 1
      ensures Valid() && layout == l && live == {} && buckets == map[]
    {
      layout, head, count, buckets, numPages, numActive := l, NULL, 0, map[], 0, 0;
      order, chains, live := [], map[], {};
      new;
      assert l.pages * 0 == 0;
    }

    /** `alloc_bucket`: every block is pushed on the chain in turn. */
    method AllocBucket(room: int)
      requires room != NULL && count == 0
      modifies this`buckets, this`numPages
      ensures S() == Obtain(old(S()), room)
    {
      var links, block, i := [], END, 0;
      while i < layout.blocks
        invariant 0 <= i <= layout.blocks && |links| == i && block == i - 1 && forall j :: 0 <= j < i ==> links[j] == j - 1
      {
        links, block := links + [block], i;
        i := i + 1;
      }
      assert links == seq(layout.blocks, i => i - 1);
      buckets := buckets[room := Bucket(NULL, NULL, EmptyBucket, layout.blocks, layout.blocks, block, links)];
      numPages := numPages + layout.pages;
    }

    method Insert(b: int)
      requires b in buckets
      modifies this`head, this`count, this`buckets
      ensures S() == InsertBucket(old(S()), b)
    {
      var next := head;
      buckets := buckets[b := buckets[b].(next := next, prev := NULL)];
      if next != NULL && next in buckets {
        buckets := buckets[next := buckets[next].(prev := b)];
      }
      head := b;
      count := count + 1;
    }

    method Remove(b: int)
      requires b in buckets
      modifies this`head, this`count, this`buckets
      ensures S() == RemoveBucket(old(S()), b)
    {
      count := count - 1;
      var prev, next := buckets[b].prev, buckets[b].next;
      if prev == NULL {
        head := next;
      } else if prev in buckets {
        buckets := buckets[prev := buckets[prev].(next := next)];
      }
      if next != NULL && next in buckets {
        buckets := buckets[next := buckets[next].(prev := prev)];
      }
    }

    method Take(b: int)
      requires b in buckets && 0 <= buckets[b].block < |buckets[b].links|
      modifies this`head, this`count, this`buckets, this`numActive
      ensures S() == TakeFrom(old(S()), b)
    {
      var k := PopBlock(buckets[b]);
      buckets := buckets[b := k];
      numActive := numActive + 1;
      if k.avail == 0 {
        buckets := buckets[b := k.(state := FullBucket)];
        Remove(b);
      } else if k.avail == k.entries - 1 {
        buckets := buckets[b := k.(state := PartialBucket)];
        Insert(b);
      }
    }

    /** A block that no live object has; fails only if a bucket is needed and `room` is NULL.  `room`
        is what the page allocator has to offer. */
    method Salloc(room: int) returns (ok: bool, b: int, i: int)
      requires Valid()
      requires room != NULL ==> room !in buckets && forall c :: c in buckets ==> Clear(room, c, PAGE_SIZE * layout.pages)
      modifies this
      ensures Valid() && (ok <==> old(count) != 0 || room != NULL)
      ensures !ok ==> S() == old(S()) && live == old(live)
      ensures ok ==> (b, i) !in old(live) && live == old(live) + {(b, i)}
    {
      ok, b, i := true, NULL, 0;
      if count != 0 {
        b, i := SallocOld();
      } else if room != NULL {
        b, i := SallocNew(room);
      } else {
        ok := false;
      }
    }

    method SallocOld() returns (b: int, i: int)
      requires Valid() && count != 0
      modifies this
      ensures Valid() && (b, i) !in old(live) && live == old(live) + {(b, i)}
    {
      b := head;
      assert LinkOk(S(), order, 0);
      ghost var c := chains[b];
      TakeOldKeeps(S(), order, chains, live, b, c);
      i := buckets[b].block;
      ghost var r := if |c| == 1 then order[1..] else order;
      Take(b);
      order, chains, live := r, chains[b := c[1..]], live + {(b, i)};
      SpacedSame(old(S()), S(), layout, b);
    }

    method SallocNew(room: int) returns (b: int, i: int)
      requires Valid() && count == 0 && room != NULL && room !in buckets
      requires forall c :: c in buckets ==> Clear(room, c, PAGE_SIZE * layout.pages)
      modifies this
      ensures Valid() && (b, i) !in old(live) && live == old(live) + {(b, i)}
    {
      TakeNewKeeps(S(), order, chains, live, room);
      AllocBucket(room);
      b, i := room, buckets[room].block;
      Take(room);
      order, chains, live := [room], chains[room := Downto(layout.blocks)[1..]], live + {(b, i)};
      SpacedSame(old(S()), S(), layout, room);
    }

    /** Frees a live object. */
    method Sfree(b: int, i: nat)
      requires Valid() && (b, i) in live
      modifies this
      ensures Valid() && live == old(live) - {(b, i)}
    {
      assert IsLive(S(), chains, (b, i));
      assert Good(S(), order, chains, b);
      LiveMeansRoom(S(), order, chains, b, i);
      ghost var last := |chains[b]| + 1 == layout.blocks;
      if last { GiveLastKeeps(S(), order, chains, live, b, i); } else { GiveKeeps(S(), order, chains, live, b, i); }
      ghost var r := OrderAfter(S(), order, b);
      Give(b, i);
      order, chains, live := r, if last then chains - {b} else chains[b := [i] + chains[b]], live - {(b, i)};
      SpacedSame(old(S()), S(), layout, b);
    }

    method Give(b: int, i: nat)
      requires b in buckets && i < |buckets[b].links|
      modifies this`head, this`count, this`buckets, this`numActive, this`numPages
      ensures S() == GiveTo(old(S()), b, i)
    {
      var k := PushBlock(buckets[b], i);
      buckets := buckets[b := k];
      numActive := numActive - 1;
      if k.avail == k.entries {
        buckets := buckets[b := k.(state := EmptyBucket)];
        Remove(b);
        buckets := buckets - {b};
        numPages := numPages - layout.pages;
      } else if k.avail == 1 {
        buckets := buckets[b := k.(state := PartialBucket)];
        Insert(b);
      }
    }
  }

  /** A bucket with a live object has a chain that leaves room for it. */
  lemma LiveMeansRoom(s: Slab, order: seq<int>, chains: map<int, seq<int>>, b: int, i: nat)
    requires IsLive(s, chains, (b, i)) && Good(s, order, chains, b)
    ensures |chains[b]| + 1 <= s.blockCount
  {
  }

  lemma SpacedSame(s: Slab, t: Slab, l: Layout, b: int)
    requires Spaced(s, l) && t.buckets.Keys <= s.buckets.Keys + {b}
    requires b in s.buckets || forall c :: c in s.buckets ==> Clear(b, c, PAGE_SIZE * l.pages)
    ensures Spaced(t, l)
  {
    forall x, y | x in t.buckets && y in t.buckets && x != y ensures Clear(x, y, PAGE_SIZE * l.pages) {
      assert x in s.buckets && y in s.buckets ==> Clear(x, y, PAGE_SIZE * l.pages);
      assert b !in s.buckets && x == b ==> Clear(b, y, PAGE_SIZE * l.pages);
      assert b !in s.buckets && y == b ==> Clear(b, x, PAGE_SIZE * l.pages);
    }
  }
}
