/** The queue of sleeping threads, ordered by the time at which each is to be woken. */
module WaitQueue {
  import opened Common

  datatype Sleeper = Sleeper(tid: nat, deadline: nat)

  /** The largest time there is, which stands for no timeout at all. */
  const FOREVER: nat := 0xffff_ffff_ffff_ffff

  ghost predicate Before(x: Sleeper, y: Sleeper) { x.deadline <= y.deadline }

  ghost predicate Sorted(q: seq<Sleeper>) {
    forall i, j {:trigger Before(q[i], q[j])} :: 0 <= i < j < |q| ==> Before(q[i], q[j])
  }

  /** Where a deadline goes: before the first one that is not smaller. */
  function Place(q: seq<Sleeper>, d: nat): (i: nat)
    ensures i <= |q| && (forall j :: 0 <= j < i ==> q[j].deadline < d) && (i < |q| ==> d <= q[i].deadline)
  {
    FirstAtLeast(q, (x: Sleeper) => x.deadline, d)
  }

  lemma InsertSorts(q: seq<Sleeper>, x: Sleeper)
    requires Sorted(q)
    ensures Sorted(Inserted(q, Place(q, x.deadline), x))
  {
    var n := Place(q, x.deadline);
    var r := Inserted(q, n, x);
    forall i, j | 0 <= i < j < |r| ensures Before(r[i], r[j]) {
      assert i < n <= j - 1 ==> Before(q[i], q[j - 1]);
      assert j < n ==> Before(q[i], q[j]);
      assert n < i ==> Before(q[i - 1], q[j - 1]);
      assert i == n < j - 1 ==> Before(q[n], q[j - 1]);
    }
  }

  /** Waking any threads, in any place, leaves the rest in order. */
  lemma RemoveSorts(q: seq<Sleeper>, i: nat)
    requires Sorted(q) && i < |q|
    ensures Sorted(Removed(q, i))
  {
    var r := Removed(q, i);
    forall j, k | 0 <= j < k < |r| ensures Before(r[j], r[k]) {
      assert Before(q[if j < i then j else j + 1], q[if k < i then k else k + 1]);
    }
  }

  /** Some thread's time has come. */
  ghost predicate SomeReady(q: seq<Sleeper>, now: nat) { exists i :: 0 <= i < |q| && q[i].deadline <= now }

  /** What `is_wait_queue_ready` answers: it looks at the first thread only. */
  function FrontSaysReady(q: seq<Sleeper>, now: nat): bool { now >= if q == [] then FOREVER else q[0].deadline }

  /** The first thread speaks for the whole queue, unless there is none and the clock is at its end. */
  lemma FrontAgreesWithScan(q: seq<Sleeper>, now: nat)
    requires Sorted(q) && now <= FOREVER
    ensures (FrontSaysReady(q, now) <==> SomeReady(q, now)) <==> q != [] || now < FOREVER
  {
    if q != [] {
      assert FrontSaysReady(q, now) ==> q[0].deadline <= now;
      forall i | 0 <= i < |q| ensures q[0].deadline <= q[i].deadline { assert i > 0 ==> Before(q[0], q[i]); }
    }
  }

  /** When a thread that waits `timeout` milliseconds from `now` is to be woken; sums wrap around. */
  function Deadline(now: nat, timeout: nat): (d: nat)
    ensures d <= FOREVER
    ensures timeout == 0 ==> d == FOREVER
    ensures timeout > 0 && now + timeout <= FOREVER ==> d == now + timeout
    ensures timeout > 0 && now <= FOREVER < now + timeout && timeout <= FOREVER ==> d < now
  {
    if timeout == 0 then FOREVER else (now + timeout) % (FOREVER + 1)
  }

  class Queue {
    var queue: seq<Sleeper>

    ghost predicate Valid()
      reads this
    {
      Sorted(queue)
    }

    constructor ()
      ensures Valid() && queue == []
    {
      queue := [];
    }

    /** `wait_on_object` and `sleep_thread`: the thread joins the queue at its deadline. */
    method Sleep(tid: nat, now: nat, timeout: nat)
      requires Valid()
      modifies this
      ensures Valid()
      ensures var d := Deadline(now, timeout); queue == Inserted(old(queue), Place(old(queue), d), Sleeper(tid, d))
    {
      var x := Sleeper(tid, Deadline(now, timeout));
      InsertSorts(queue, x);
      var i := 0;
      while i < |queue| && queue[i].deadline < x.deadline
        invariant 0 <= i <= |queue| && forall j :: 0 <= j < i ==> queue[j].deadline < x.deadline
      {
        i := i + 1;
      }
      PlaceIsFirst(queue, x.deadline, i);
      queue := Inserted(queue, i, x);
    }

    /** Takes any one thread out, as a wake-up or a purge does. */
    method Remove(i: nat)
      requires Valid() && i < |queue|
      modifies this
      ensures Valid() && queue == Removed(old(queue), i)
    {
      RemoveSorts(queue, i);
      queue := queue[..i] + queue[i + 1..];
    }

    method IsReady(now: nat) returns (ready: bool)
      requires Valid() && now <= FOREVER
      ensures ready == FrontSaysReady(queue, now)
      ensures queue != [] || now < FOREVER ==> (ready <==> SomeReady(queue, now))
    {
      var next := FOREVER;
      if queue != [] {
        next := queue[0].deadline;
      }
      ready := now >= next;
      FrontAgreesWithScan(queue, now);
    }

    /** One pass of the timeout worker, which reads the clock anew for every thread it looks at: the
        `k`-th reading is `clock(k)`.  The woken threads are the front of the queue, each was due
        when it was woken, and of the others none was due at the last reading. */
    method WakeExpired(clock: nat -> nat) returns (woken: seq<Sleeper>)
      requires Valid() && forall i: nat, j: nat :: i <= j ==> clock(i) <= clock(j)
      modifies this
      ensures Valid() && old(queue) == woken + queue
      ensures forall k :: 0 <= k < |woken| ==> woken[k].deadline <= clock(k)
      ensures forall i :: 0 <= i < |queue| ==> queue[i].deadline > clock(|woken|)
    {
      woken := [];
      while queue != []
        invariant Valid() && |woken| <= |old(queue)| && woken == old(queue)[..|woken|] && queue == old(queue)[|woken|..]
        invariant forall k :: 0 <= k < |woken| ==> woken[k].deadline <= clock(k)
        decreases |queue|
      {
        var now := clock(|woken|);
        if queue[0].deadline > now {
          NoneDue(queue, now);
          break;
        }
        woken := woken + [queue[0]];
        RemoveSorts(queue, 0);
        assert Removed(queue, 0) == queue[1..];
        queue := queue[1..];
      }
    }
  }

  lemma NoneDue(q: seq<Sleeper>, now: nat)
    requires Sorted(q) && q != [] && q[0].deadline > now
    ensures forall i :: 0 <= i < |q| ==> q[i].deadline > now
  {
    forall i | 0 <= i < |q| ensures q[i].deadline > now { assert i > 0 ==> Before(q[0], q[i]); }
  }

  lemma {:induction false} PlaceIsFirst(q: seq<Sleeper>, d: nat, i: nat)
    requires i <= |q| && (forall j :: 0 <= j < i ==> q[j].deadline < d) && (i < |q| ==> d <= q[i].deadline)
    ensures Place(q, d) == i
  {
    if i > 0 { PlaceIsFirst(q[1..], d, i - 1); }
  }
}
