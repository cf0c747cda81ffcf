/** The shootdown protocol: a freed block is reused only after every CPU dropped its translations.

    Requests wait in a queue in the order of their sequence numbers.  Each CPU remembers the last
    number it served, and each request the number of CPUs that have not served it yet. */
module Tlb {
  import opened AddressSpace

  datatype Request = Request(block: Block, seqNo: nat, waitAcks: int)

  // ---------------------------------------------------------------- the walk of one CPU

  /** The CPU's sequence number after the first `n` requests. */
  function Served(q: seq<Request>, n: nat, my: nat): nat
    requires n <= |q|
  {
    if n == 0 then my
    else if Served(q, n - 1, my) < q[n - 1].seqNo then q[n - 1].seqNo
    else Served(q, n - 1, my)
  }

  /** What it has invalidated by then. */
  function Dropped(q: seq<Request>, n: nat, my: nat): seq<Block>
    requires n <= |q|
  {
    if n == 0 then []
    else if Served(q, n - 1, my) < q[n - 1].seqNo then Dropped(q, n - 1, my) + [q[n - 1].block]
    else Dropped(q, n - 1, my)
  }

  /** The requests by then: those it served need one acknowledgement less. */
  function Acked(q: seq<Request>, n: nat, my: nat): (r: seq<Request>)
    requires n <= |q|
    ensures |r| == |q| && forall i :: n <= i < |q| ==> r[i] == q[i]
  {
    if n == 0 then q
    else if Served(q, n - 1, my) < q[n - 1].seqNo then
      Acked(q, n - 1, my)[n - 1 := q[n - 1].(waitAcks := q[n - 1].waitAcks - 1)]
    else Acked(q, n - 1, my)
  }

  /** The number of leading requests that every CPU has acknowledged. */
  function Ready(q: seq<Request>): (n: nat)
    ensures n <= |q| && (forall i :: 0 <= i < n ==> q[i].waitAcks == 0) && (n < |q| ==> q[n].waitAcks != 0)
  {
    if q == [] || q[0].waitAcks != 0 then 0 else 1 + Ready(q[1..])
  }

  function Blocks(q: seq<Request>): (s: seq<Block>)
    ensures |s| == |q| && forall i :: 0 <= i < |q| ==> s[i] == q[i].block
  {
    seq(|q|, i requires 0 <= i < |q| => q[i].block)
  }

  lemma BlocksGrow(q: seq<Request>, n: nat)
    requires n < |q|
    ensures Blocks(q[..n + 1]) == Blocks(q[..n]) + [q[n].block]
  {
  }

  // ---------------------------------------------------------------- the protocol

  /** `asked`, `seen` and `released` are the history: every block a shootdown was requested for, what
      each CPU has invalidated, and the blocks that went on to the list of unmapped ones. */
  datatype State = State(queue: seq<Request>, nextSeq: nat, local: seq<nat>,
                         asked: seq<Block>, seen: seq<seq<Block>>, released: seq<Block>)

  datatype Action = Ask(b: Block) | Walk(cpu: nat) | Reap

  function Step(s: State, a: Action): State
    requires a.Walk? ==> a.cpu < |s.local| == |s.seen|
  {
    match a
    case Ask(b) =>
      s.(queue := s.queue + [Request(b, s.nextSeq, |s.local|)], nextSeq := s.nextSeq + 1, asked := s.asked + [b])
    case Walk(c) =>
      var n, my := |s.queue|, s.local[c];
      s.(queue := Acked(s.queue, n, my), local := s.local[c := Served(s.queue, n, my)],
         seen := s.seen[c := s.seen[c] + Dropped(s.queue, n, my)])
    case Reap =>
      s.(queue := s.queue[Ready(s.queue)..], released := s.released + Blocks(s.queue[..Ready(s.queue)]))
  }

  /** How many CPUs are behind `seqNo`. */
  ghost function Behind(local: seq<nat>, seqNo: nat): nat {
    if local == [] then 0 else (if local[0] < seqNo then 1 else 0) + Behind(local[1..], seqNo)
  }

  ghost predicate Queued(s: State, i: nat)
    requires i < |s.queue| && |s.released| + |s.queue| == |s.asked|
  {
    var k := |s.released| + i;
    s.queue[i] == Request(s.asked[k], k + 1, Behind(s.local, k + 1))
  }

  ghost predicate Current(s: State, c: nat)
    requires c < |s.local| == |s.seen|
  {
    |s.released| <= s.local[c] <= |s.asked| && s.seen[c] == s.asked[..s.local[c]]
  }

  /** The queue holds, in order and consecutively numbered, what was asked and not released; the
      acknowledgements a request waits for are the CPUs behind it; each CPU has invalidated every
      block up to its own number exactly once and in order. */
  ghost predicate Inv(s: State) {
    && |s.local| == |s.seen| > 0 && s.nextSeq == |s.asked| + 1
    && |s.released| + |s.queue| == |s.asked| && s.released == s.asked[..|s.released|]
    && (forall i: nat {:trigger Queued(s, i)} :: i < |s.queue| ==> Queued(s, i))
    && (forall c: nat {:trigger Current(s, c)} :: c < |s.local| ==> Current(s, c))
  }

  // ---------------------------------------------------------------- counting

  lemma {:induction false} BehindMonotone(local: seq<nat>, a: nat, b: nat)
    requires a <= b
    ensures Behind(local, a) <= Behind(local, b) <= |local|
  {
    if local != [] { BehindMonotone(local[1..], a, b); }
  }

  lemma {:induction false} BehindAll(local: seq<nat>, k: nat)
    requires forall c :: 0 <= c < |local| ==> local[c] < k
    ensures Behind(local, k) == |local|
  {
    if local != [] { BehindAll(local[1..], k); }
  }

  lemma {:induction false} BehindNone(local: seq<nat>, k: nat)
    ensures Behind(local, k) == 0 <==> forall c :: 0 <= c < |local| ==> k <= local[c]
  {
    if local != [] {
      BehindNone(local[1..], k);
      assert local == [local[0]] + local[1..];
    }
  }

  lemma {:induction false} BehindUpdate(local: seq<nat>, c: nat, v: nat, k: nat)
    requires c < |local|
    ensures Behind(local[c := v], k) - (if v < k then 1 else 0) == Behind(local, k) - (if local[c] < k then 1 else 0)
  {
    if c == 0 {
      assert local[0 := v][1..] == local[1..];
    } else {
      BehindUpdate(local[1..], c - 1, v, k);
      assert local[c := v][1..] == local[1..][c - 1 := v];
    }
  }

  // ---------------------------------------------------------------- every step keeps the invariant

  lemma AskKeeps(s: State, b: Block)
    requires Inv(s)
    ensures Inv(Step(s, Ask(b)))
  {
    var t := Step(s, Ask(b));
    forall i: nat | i < |t.queue| ensures Queued(t, i) {
      if i < |s.queue| {
        assert Queued(s, i);
      } else {
        forall c | 0 <= c < |s.local| ensures s.local[c] < s.nextSeq { assert Current(s, c); }
        BehindAll(s.local, s.nextSeq);
      }
    }
    forall c: nat | c < |t.local| ensures Current(t, c) { assert Current(s, c); }
  }

  ghost function Later(a: nat, b: nat): nat { if a < b then b else a }

  /** On consecutive numbers the walk serves exactly the requests beyond the CPU's number. */
  lemma {:induction false} ServedClosed(s: State, n: nat, my: nat)
    requires Inv(s) && n <= |s.queue|
    ensures Served(s.queue, n, my) == if n == 0 then my else Later(my, |s.released| + n)
  {
    if n > 0 {
      ServedClosed(s, n - 1, my);
      assert Queued(s, n - 1);
    }
  }

  lemma {:induction false} DroppedClosed(s: State, n: nat, my: nat)
    requires Inv(s) && n <= |s.queue| && |s.released| <= my <= |s.asked|
    ensures Dropped(s.queue, n, my) == s.asked[my..Later(my, |s.released| + n)]
  {
    if n > 0 {
      DroppedClosed(s, n - 1, my);
      ServedClosed(s, n - 1, my);
      assert Queued(s, n - 1);
      var k := |s.released| + n;
      assert my < k ==> s.asked[my..k - 1] + [s.asked[k - 1]] == s.asked[my..k];
    }
  }

  lemma {:induction false} AckedClosed(s: State, n: nat, my: nat, i: nat)
    requires Inv(s) && n <= |s.queue| && i < n
    ensures Acked(s.queue, n, my)[i] ==
      s.queue[i].(waitAcks := s.queue[i].waitAcks - if my <= |s.released| + i then 1 else 0)
  {
    if i < n - 1 {
      AckedClosed(s, n - 1, my, i);
    } else {
      ServedClosed(s, i, my);
      assert Queued(s, i);
    }
  }

  lemma WalkMovesCpu(s: State, c: nat)
    requires Inv(s) && c < |s.local|
    ensures var t := Step(s, Walk(c));
      t.local == s.local[c := |s.asked|] && t.seen == s.seen[c := s.asked]
  {
    assert Current(s, c);
    ServedClosed(s, |s.queue|, s.local[c]);
    DroppedClosed(s, |s.queue|, s.local[c]);
    assert s.asked[..s.local[c]] + s.asked[s.local[c]..|s.asked|] == s.asked;
  }

  lemma WalkKeeps(s: State, c: nat)
    requires Inv(s) && c < |s.local|
    ensures Inv(Step(s, Walk(c))) && Step(s, Walk(c)).local[c] == |s.asked|
  {
    var t := Step(s, Walk(c));
    WalkMovesCpu(s, c);
    assert Current(s, c);
    forall i: nat | i < |t.queue| ensures Queued(t, i) {
      assert Queued(s, i);
      AckedClosed(s, |s.queue|, s.local[c], i);
      BehindUpdate(s.local, c, |s.asked|, |s.released| + i + 1);
    }
    forall d: nat | d < |t.local| ensures Current(t, d) { assert Current(s, d); }
  }

  lemma ReapKeeps(s: State)
    requires Inv(s)
    ensures Inv(Step(s, Reap))
  {
    var t, n := Step(s, Reap), Ready(s.queue);
    forall i | 0 <= i < n ensures s.queue[i].block == s.asked[|s.released| + i] { assert Queued(s, i); }
    assert t.released == s.asked[..|s.released| + n];
    forall i: nat | i < |t.queue| ensures Queued(t, i) { assert Queued(s, i + n); }
    if n > 0 {
      assert Queued(s, n - 1);
      BehindNone(s.local, |t.released|);
    }
    forall c: nat | c < |t.local| ensures Current(t, c) { assert Current(s, c); }
  }

  /** After a reap no request that everyone acknowledged is queued, at the front or behind it. */
  lemma ReapTakesAllReady(s: State, i: nat)
    requires Inv(s) && i < |Step(s, Reap).queue|
    ensures Step(s, Reap).queue[i].waitAcks > 0
  {
    var n := Ready(s.queue);
    assert Queued(s, n) && Queued(s, n + i);
    BehindMonotone(s.local, |s.released| + n + 1, |s.released| + n + i + 1);
  }

  // ---------------------------------------------------------------- whole runs

  function Start(cpus: nat): State { State([], 1, seq(cpus, _ => 0), [], seq(cpus, _ => []), []) }

  /** The state after the actions, in any interleaving of requests, walks and reaps. */
  function Run(cpus: nat, actions: seq<Action>): (s: State)
    requires forall i :: 0 <= i < |actions| && actions[i].Walk? ==> actions[i].cpu < cpus
    ensures |s.local| == |s.seen| == cpus
  {
    if actions == [] then Start(cpus)
    else Step(Run(cpus, actions[..|actions| - 1]), actions[|actions| - 1])
  }

  lemma {:induction false} RunKeepsInv(cpus: nat, actions: seq<Action>)
    requires cpus > 0 && forall i :: 0 <= i < |actions| && actions[i].Walk? ==> actions[i].cpu < cpus
    ensures Inv(Run(cpus, actions))
  {
    if actions != [] {
      var before := actions[..|actions| - 1];
      RunKeepsInv(cpus, before);
      match actions[|actions| - 1]
      case Ask(b) => AskKeeps(Run(cpus, before), b);
      case Walk(c) => WalkKeeps(Run(cpus, before), c);
      case Reap => ReapKeeps(Run(cpus, before));
    } else {
      assert forall c :: 0 <= c < cpus ==> Current(Start(cpus), c);
    }
  }

  /** Safety: whatever was released, every CPU had invalidated, request by request. */
  lemma ReleasedWasSeenByAll(cpus: nat, actions: seq<Action>, k: nat, c: nat)
    requires cpus > 0 && forall i :: 0 <= i < |actions| && actions[i].Walk? ==> actions[i].cpu < cpus
    requires k < |Run(cpus, actions).released| && c < cpus
    ensures var s := Run(cpus, actions);
      k < |s.seen[c]| && k < |s.asked| && s.seen[c][k] == s.released[k] == s.asked[k]
  {
    RunKeepsInv(cpus, actions);
    assert Current(Run(cpus, actions), c);
  }

  /** Each CPU's log is the first requests, in order and without repetition. */
  lemma SeenIsPrefixOfAsked(cpus: nat, actions: seq<Action>, c: nat)
    requires cpus > 0 && forall i :: 0 <= i < |actions| && actions[i].Walk? ==> actions[i].cpu < cpus
    requires c < cpus
    ensures Run(cpus, actions).seen[c] <= Run(cpus, actions).asked
  {
    RunKeepsInv(cpus, actions);
    assert Current(Run(cpus, actions), c);
  }

  /** The numbers in the queue are strictly increasing and below the next one. */
  lemma QueueIsOrdered(cpus: nat, actions: seq<Action>, i: nat, j: nat)
    requires cpus > 0 && forall i :: 0 <= i < |actions| && actions[i].Walk? ==> actions[i].cpu < cpus
    requires i < j < |Run(cpus, actions).queue|
    ensures var s := Run(cpus, actions); s.queue[i].seqNo < s.queue[j].seqNo < s.nextSeq
  {
    RunKeepsInv(cpus, actions);
    assert Queued(Run(cpus, actions), i) && Queued(Run(cpus, actions), j);
  }

  /** Every queued request waits for exactly the CPUs that are behind its number. */
  lemma QueueIsCounted(cpus: nat, actions: seq<Action>, i: nat)
    requires cpus > 0 && forall i :: 0 <= i < |actions| && actions[i].Walk? ==> actions[i].cpu < cpus
    requires i < |Run(cpus, actions).queue|
    ensures var s := Run(cpus, actions);
      s.queue[i].seqNo < s.nextSeq && s.queue[i].waitAcks == Behind(s.local, s.queue[i].seqNo)
  {
    RunKeepsInv(cpus, actions);
    assert Queued(Run(cpus, actions), i);
  }

  // ---------------------------------------------------------------- progress

  function Walks(s: State, n: nat): (t: State)
    requires n <= |s.local| == |s.seen|
    ensures |t.local| == |s.local| == |t.seen|
  {
    if n == 0 then s else Step(Walks(s, n - 1), Walk(n - 1))
  }

  lemma {:induction false} WalksReach(s: State, n: nat)
    requires Inv(s) && n <= |s.local|
    ensures var t := Walks(s, n);
      Inv(t) && t.asked == s.asked && forall c :: 0 <= c < n ==> t.local[c] == |s.asked|
  {
    if n > 0 {
      WalksReach(s, n - 1);
      WalkKeeps(Walks(s, n - 1), n - 1);
    }
  }

  lemma AllServedAllReady(s: State)
    requires Inv(s) && forall c :: 0 <= c < |s.local| ==> s.local[c] == |s.asked|
    ensures Ready(s.queue) == |s.queue|
  {
    var n := Ready(s.queue);
    if n < |s.queue| {
      assert Queued(s, n);
      BehindNone(s.local, |s.released| + n + 1);
    }
  }

  /** Once every CPU has walked the queue, one reap releases everything that was asked. */
  lemma EveryoneWalkedReleasesAll(s: State)
    requires Inv(s)
    ensures var t := Step(Walks(s, |s.local|), Reap); t.queue == [] && t.released == s.asked
  {
    var u := Walks(s, |s.local|);
    WalksReach(s, |s.local|);
    AllServedAllReady(u);
    ReapKeeps(u);
  }

  // ---------------------------------------------------------------- the code

  class Shootdown {
    const cpus: nat
    var queue: seq<Request>
    var nextSeq: nat
    const local: array<nat>

    ghost var asked: seq<Block>
    ghost var seen: seq<seq<Block>>
    ghost var released: seq<Block>

    ghost function S(): State
      reads this, local
    {
      State(queue, nextSeq, local[..], asked, seen, released)
    }

    /** With one CPU nothing is ever queued and a request is served on the spot. */
    ghost predicate Valid()
      reads this, local
    {
      && local.Length == cpus > 0 && |seen| == cpus
      && (cpus > 1 ==> Inv(S()))
      && (cpus == 1 ==> queue == [] && seen[0] == released == asked)
    }

    constructor (cpus: nat)
      requires cpus > 0
      ensures Valid() && this.cpus == cpus && fresh(local) && S() == Start(cpus)
    {
      this.cpus := cpus;
      queue, nextSeq := [], 1;
      local := new nat[cpus](_ => 0);
      asked, released := [], [];
      seen := seq(cpus, _ => []);
      new;
      assert local[..] == seq(cpus, _ => 0);
      assert forall c :: 0 <= c < cpus ==> Current(Start(cpus), c);
    }

    /** Every CPU has invalidated what was released, request by request. */
    lemma ReleasedIsSeen(c: nat)
      requires Valid() && c < cpus
      ensures |released| <= |seen[c]| && seen[c] <= asked
    {
      if cpus > 1 { assert Current(S(), c); }
    }

    /** When every CPU has invalidated everything and no request is ready, nothing is queued any more. */
    lemma AllSeenAllReleased()
      requires Valid() && (forall c: nat :: c < cpus ==> seen[c] == asked) && forall i :: 0 <= i < |queue| ==> queue[i].waitAcks > 0
      ensures queue == [] && released == asked
    {
      if cpus > 1 {
        forall c: nat | c < cpus ensures local[c] == |asked| { assert Current(S(), c); }
        AllServedAllReady(S());
        assert forall i :: 0 <= i < |queue| ==> queue[i].waitAcks == 0;
      }
    }

    /** `request_tlb_shootdown`; the result is the number of acknowledgements to wait for. */
    method RequestShootdown(b: Block) returns (wait: nat)
      requires Valid()
      modifies this
      ensures Valid() && asked == old(asked) + [b] && wait == (if cpus > 1 then cpus else 0)
      ensures cpus > 1 ==> S() == Step(old(S()), Ask(b))
      ensures cpus == 1 ==> released == old(released) + [b]
    {
      asked := asked + [b];
      if cpus <= 1 {
        seen := seen[0 := seen[0] + [b]];
        released := released + [b];
        return 0;
      }
      AskKeeps(old(S()), b);
      queue := queue + [Request(b, nextSeq, cpus)];
      nextSeq := nextSeq + 1;
      return cpus;
    }

    /** The first half of `service_tlb_shootdown_requests`, under the queue's lock. */
    method WalkQueue(cpu: nat)
      requires Valid() && cpus > 1 && cpu < cpus
      modifies this`queue, this`seen, local
      ensures Valid() && S() == Step(old(S()), Walk(cpu)) && local[cpu] == |asked|
    {
      WalkKeeps(S(), cpu);
      var my, i, q := local[cpu], 0, queue;
      ghost var my0 := my;
      ghost var log := [];
      while i < |queue|
        invariant 0 <= i <= |q| && queue == Acked(q, i, my0) && my == Served(q, i, my0) && log == Dropped(q, i, my0)
        invariant local[..] == old(local[..])[cpu := my]
        modifies this`queue, local
      {
        if my < queue[i].seqNo {
          log := log + [queue[i].block];
          queue := queue[i := queue[i].(waitAcks := queue[i].waitAcks - 1)];
          my := queue[i].seqNo;
          local[cpu] := my;
        }
        i := i + 1;
      }
      seen := seen[cpu := seen[cpu] + log];
    }

    /** Its second half, under the lock again. */
    method ReapQueue()
      requires Valid() && cpus > 1
      modifies this`queue, this`released
      ensures Valid() && S() == Step(old(S()), Reap) && forall i :: 0 <= i < |queue| ==> queue[i].waitAcks > 0
    {
      ReapKeeps(S());
      ghost var n := 0;
      ghost var q := queue;
      while queue != []
        invariant n <= |q| && queue == q[n..] && released == old(released) + Blocks(q[..n]) && Ready(q) == n + Ready(queue)
        decreases |queue|
      {
        if queue[0].waitAcks != 0 {
          break;
        }
        BlocksGrow(q, n);
        released := released + [queue[0].block];
        queue := queue[1..];
        n := n + 1;
      }
      forall i | 0 <= i < |queue| ensures queue[i].waitAcks > 0 { ReapTakesAllReady(old(S()), i); }
    }

    method Service(cpu: nat)
      requires Valid() && cpu < cpus
      modifies this`queue, this`seen, this`released, local
      ensures Valid() && asked == old(asked)
      ensures cpus > 1 ==> S() == Step(Step(old(S()), Walk(cpu)), Reap)
    {
      if cpus > 1 {
        WalkQueue(cpu);
        ReapQueue();
      }
    }
  }
}
