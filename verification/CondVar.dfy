/** The one-shot condition variable: any number of threads wait for and signal one futex word, each
    step being one atomic access to the word or to the kernel's wait queue. */
module CondVar {
  import opened Common

  datatype Futex = Futex(locked: bool, kernel: bool)

  /** Where a thread stands.  A waiter spins, reads the word, tries to set the kernel bit, and enters
      the kernel, where it takes the queue's lock, reads the kernel bit and the signal bit and, if it
      is to wait, puts itself in the queue and releases the lock.  A signaler sets the signal bit,
      and if the kernel bit was set tries to clear it; whoever clears it takes the lock, reads both
      bits again and wakes everyone in the queue. */
  datatype Place =
    | Spin(n: int, max: int)
    | Read
    | TrySet(seen: Futex)
    | Enter
    | ReadKernel
    | ReadLocked(kernel: bool)
    | ToSleep
    | Asleep
    | Returned
    | SigRead
    | SigTry(seen: Futex)
    | ClearRead
    | ClearTry(seen: Futex)
    | Wake
    | WakeKernel
    | WakeLocked(kernel: bool)
    | Signaled

  datatype State = State(futex: Futex, holder: int, threads: seq<Place>)

  const NOBODY: int := -1

  /** What thread `t` does next; a thread that must wait for the lock, or sleeps, does nothing. */
  function Step(s: State, t: nat): State
    requires t < |s.threads|
  {
    var f := s.futex;
    match s.threads[t]
    case Spin(n, max) =>
      if max >= 0 && n > max then Go(s, t, Read)
      else if f.locked then Go(s, t, Returned)
      else Go(s, t, Spin(n + 1, max))
    case Read => if f.locked then Go(s, t, Returned) else Go(s, t, TrySet(f))
    case TrySet(seen) => if f == seen then Go(s, t, Enter).(futex := seen.(kernel := true)) else Go(s, t, Read)
    case Enter => if s.holder == NOBODY then Go(s, t, ReadKernel).(holder := t) else s
    case ReadKernel => Go(s, t, ReadLocked(f.kernel))
    case ReadLocked(k) => if k && !f.locked then Go(s, t, ToSleep) else Go(s, t, Returned).(holder := NOBODY)
    case ToSleep => Go(s, t, Asleep).(holder := NOBODY)
    case Asleep => s
    case Returned => s
    case SigRead => Go(s, t, SigTry(f))
    case SigTry(seen) =>
      if f != seen then Go(s, t, SigRead)
      else Go(s, t, if seen.kernel then ClearRead else Signaled).(futex := seen.(locked := true))
    case ClearRead => if f.kernel then Go(s, t, ClearTry(f)) else Go(s, t, Signaled)
    case ClearTry(seen) => if f == seen then Go(s, t, Wake).(futex := seen.(kernel := false)) else Go(s, t, ClearRead)
    case Wake => if s.holder == NOBODY then Go(s, t, WakeKernel).(holder := t) else s
    case WakeKernel => Go(s, t, WakeLocked(f.kernel))
    case WakeLocked(k) => Go(if !k && f.locked then WakeAll(s) else s, t, Signaled).(holder := NOBODY)
    case Signaled => s
  }

  function Go(s: State, t: nat, p: Place): State
    requires t < |s.threads|
  {
    s.(threads := s.threads[t := p])
  }

  function WakeAll(s: State): (r: State)
    ensures |r.threads| == |s.threads| && r.futex == s.futex && r.holder == s.holder
    ensures forall i :: 0 <= i < |s.threads| ==> r.threads[i] == if s.threads[i].Asleep? then Returned else s.threads[i]
  {
    s.(threads := seq(|s.threads|, i requires 0 <= i < |s.threads| => if s.threads[i].Asleep? then Returned else s.threads[i]))
  }

  /** Before its call returns, a waiter starts at `Spin` and a signaler at `SigRead`. */
  predicate Initial(s: State) {
    && s.futex == Futex(false, false) && s.holder == NOBODY
    && forall t :: 0 <= t < |s.threads| ==> s.threads[t].Spin? || s.threads[t].SigRead?
  }

  // ---------------------------------------------------------------- invariant

  /** Between its first compare-and-swap and the end of its wake call. */
  predicate Pending(p: Place) { Clearing(p) || Waking(p) }

  predicate Clearing(p: Place) { p.ClearRead? || p.ClearTry? }

  predicate Waking(p: Place) { p.Wake? || p.WakeKernel? || p.WakeLocked? }

  predicate Locking(p: Place) { p.ReadKernel? || p.ReadLocked? || p.ToSleep? || p.WakeKernel? || p.WakeLocked? }

  /** What each thread's place says about the word. */
  predicate PlaceOk(f: Futex, p: Place) {
    match p
    case TrySet(seen) => !seen.locked
    case Enter => f.kernel || f.locked
    case ReadKernel => f.kernel || f.locked
    case ReadLocked(k) => (f.kernel || f.locked) && (!k ==> f.locked)
    case Returned => f.locked
    case ClearRead => f.locked
    case ClearTry(seen) => f.locked && seen == Futex(true, true)
    case Wake => f.locked && !f.kernel
    case WakeKernel => f.locked && !f.kernel
    case WakeLocked(k) => f.locked && !f.kernel && !k
    case Signaled => f.locked
    case _ => true
  }

  ghost predicate SomeClearing(s: State) { exists u :: 0 <= u < |s.threads| && Clearing(s.threads[u]) }

  ghost predicate SomeWaking(s: State) { exists u :: 0 <= u < |s.threads| && Waking(s.threads[u]) }

  /** A waiter that sleeps, or is bound to, is owed a wake-up. */
  ghost predicate Owed(s: State) {
    if !s.futex.locked then s.futex.kernel else if s.futex.kernel then SomeClearing(s) else SomeWaking(s)
  }

  ghost predicate ThreadOk(s: State, t: nat)
    requires t < |s.threads|
  {
    var p := s.threads[t];
    PlaceOk(s.futex, p) && (Locking(p) <==> s.holder == t) && (p.ToSleep? || p.Asleep? ==> Owed(s))
  }

  ghost predicate Inv(s: State) {
    && NOBODY <= s.holder < |s.threads|
    && forall t: nat {:trigger ThreadOk(s, t)} :: t < |s.threads| ==> ThreadOk(s, t)
  }

  // ---------------------------------------------------------------- every step keeps it

  /** The owed wake-up survives a step that is not the wake itself. */
  lemma OwedStays(s: State, t: nat)
    requires Inv(s) && t < |s.threads| && !s.threads[t].WakeLocked? && Owed(s)
    ensures Owed(Step(s, t))
  {
    var r, p, f := Step(s, t), s.threads[t], s.futex;
    assert ThreadOk(s, t);
    assert r.threads == s.threads[t := r.threads[t]];
    if f.locked && f.kernel {
      var u :| 0 <= u < |s.threads| && Clearing(s.threads[u]);
      if r.futex.kernel { assert Clearing(r.threads[u]); } else { assert Waking(r.threads[t]); }
    } else if f.locked {
      var u :| 0 <= u < |s.threads| && Waking(s.threads[u]);
      assert Waking(r.threads[u]);
    } else if r.futex.locked {
      assert Clearing(r.threads[t]);
    }
  }

  /** A waiter that decides to sleep saw the kernel bit, and nobody can have cleared it yet. */
  lemma SleeperIsOwed(s: State, t: nat)
    requires Inv(s) && t < |s.threads| && s.threads[t].ReadLocked? && Step(s, t).threads[t].ToSleep?
    ensures Owed(Step(s, t))
  {
    assert ThreadOk(s, t);
  }

  /** Other threads' places stay right whatever one thread does to the word. */
  lemma PlaceStays(s: State, t: nat, u: nat)
    requires Inv(s) && t < |s.threads| && u < |s.threads| && t != u
    ensures PlaceOk(Step(s, t).futex, s.threads[u])
  {
    assert ThreadOk(s, t) && ThreadOk(s, u);
  }

  lemma OwnPlace(s: State, t: nat)
    requires Inv(s) && t < |s.threads|
    ensures var r := Step(s, t); PlaceOk(r.futex, r.threads[t]) && (Locking(r.threads[t]) <==> r.holder == t)
  {
    assert ThreadOk(s, t);
  }

  lemma HolderStays(s: State, t: nat, u: nat)
    requires Inv(s) && t < |s.threads| && u < |s.threads| && t != u
    ensures s.holder == u <==> Step(s, t).holder == u
  {
    assert ThreadOk(s, t) && ThreadOk(s, u);
  }

  /** The wake call finds the bits as the signaler left them and empties the queue. */
  lemma WakeEmpties(s: State, t: nat, u: nat)
    requires Inv(s) && t < |s.threads| && u < |s.threads| && s.threads[t].WakeLocked?
    ensures !Step(s, t).threads[u].Asleep? && !Step(s, t).threads[u].ToSleep?
    ensures u != t ==> Step(s, t).threads[u] == if s.threads[u].Asleep? then Returned else s.threads[u]
  {
    assert ThreadOk(s, t) && ThreadOk(s, u);
  }

  lemma OtherOk(s: State, t: nat, u: nat)
    requires Inv(s) && t < |s.threads| && u < |s.threads| && t != u
    ensures ThreadOk(Step(s, t), u)
  {
    assert ThreadOk(s, u) && ThreadOk(s, t);
    PlaceStays(s, t, u);
    HolderStays(s, t, u);
    if s.threads[t].WakeLocked? {
      WakeEmpties(s, t, u);
    } else {
      assert Step(s, t).threads[u] == s.threads[u];
      if s.threads[u].ToSleep? || s.threads[u].Asleep? { OwedStays(s, t); }
    }
  }

  lemma StepKeepsInv(s: State, t: nat)
    requires Inv(s) && t < |s.threads|
    ensures Inv(Step(s, t))
  {
    var r := Step(s, t);
    forall u: nat | u < |r.threads| ensures ThreadOk(r, u) {
      if u != t {
        OtherOk(s, t, u);
      } else {
        assert ThreadOk(s, t);
        OwnPlace(s, t);
        if s.threads[t].ReadLocked? {
          if r.threads[t].ToSleep? { SleeperIsOwed(s, t); }
        } else if s.threads[t].WakeLocked? {
          WakeEmpties(s, t, t);
        } else if s.threads[t].ToSleep? || s.threads[t].Asleep? {
          OwedStays(s, t);
        }
      }
    }
  }

  // ---------------------------------------------------------------- whole runs

  /** The state after the given threads have moved, one at a time, in that order. */
  function Run(s: State, schedule: seq<nat>): (r: State)
    requires forall i :: 0 <= i < |schedule| ==> schedule[i] < |s.threads|
    ensures |r.threads| == |s.threads|
  {
    if schedule == [] then s else
      Step(Run(s, schedule[..|schedule| - 1]), schedule[|schedule| - 1])
  }

  lemma RunKeepsInv(s: State, schedule: seq<nat>)
    requires Initial(s) && forall i :: 0 <= i < |schedule| ==> schedule[i] < |s.threads|
    ensures Inv(Run(s, schedule))
  {
    assert Inv(s);
    InvIsKept(s, schedule);
  }

  lemma {:induction false} InvIsKept(s: State, schedule: seq<nat>)
    requires Inv(s) && forall i :: 0 <= i < |schedule| ==> schedule[i] < |s.threads|
    ensures Inv(Run(s, schedule))
  {
    if schedule != [] {
      InvIsKept(s, schedule[..|schedule| - 1]);
      StepKeepsInv(Run(s, schedule[..|schedule| - 1]), schedule[|schedule| - 1]);
    }
  }

  /** No lost wake-up: once the signal is set and no signaler is between its first compare-and-swap
      and the end of its wake call, nobody sleeps, and nobody is about to. */
  lemma NoLostWakeup(s: State, schedule: seq<nat>, t: nat)
    requires Initial(s) && forall i :: 0 <= i < |schedule| ==> schedule[i] < |s.threads|
    requires t < |s.threads| && Run(s, schedule).futex.locked
    requires forall u :: 0 <= u < |s.threads| ==> !Pending(Run(s, schedule).threads[u])
    ensures !Run(s, schedule).threads[t].Asleep? && !Run(s, schedule).threads[t].ToSleep?
  {
    RunKeepsInv(s, schedule);
    assert ThreadOk(Run(s, schedule), t);
  }

  /** No wait returns before the signal: a returned waiter proves that the signal bit is set. */
  lemma NoEarlyReturn(s: State, schedule: seq<nat>, t: nat)
    requires Initial(s) && forall i :: 0 <= i < |schedule| ==> schedule[i] < |s.threads|
    requires t < |s.threads| && Run(s, schedule).threads[t].Returned?
    ensures Run(s, schedule).futex.locked
  {
    RunKeepsInv(s, schedule);
    assert ThreadOk(Run(s, schedule), t);
  }

  /** The signal is never taken back. */
  lemma {:induction false} SignalIsForever(s: State, schedule: seq<nat>, n: nat)
    requires Initial(s) && n <= |schedule| && forall i :: 0 <= i < |schedule| ==> schedule[i] < |s.threads|
    requires Run(s, schedule[..n]).futex.locked
    ensures Run(s, schedule).futex.locked
  {
    if n == |schedule| {
      assert schedule[..n] == schedule;
    } else {
      var before := schedule[..|schedule| - 1];
      assert before[..n] == schedule[..n];
      SignalIsForever(s, before, n);
      RunKeepsInv(s, before);
      assert ThreadOk(Run(s, before), schedule[|schedule| - 1]);
    }
  }

  /** The bits a signaler left are there when it gets to the queue, so its wake call is never void. */
  lemma WakeIsNeverVoid(s: State, schedule: seq<nat>, t: nat)
    requires Initial(s) && forall i :: 0 <= i < |schedule| ==> schedule[i] < |s.threads|
    requires t < |s.threads| && Run(s, schedule).threads[t].WakeLocked?
    ensures var r := Run(s, schedule);
      forall u :: 0 <= u < |r.threads| && r.threads[u].Asleep? ==> Step(r, t).threads[u].Returned?
  {
    RunKeepsInv(s, schedule);
    var r := Run(s, schedule);
    assert ThreadOk(r, t);
    forall u: nat | u < |r.threads| && r.threads[u].Asleep? ensures Step(r, t).threads[u].Returned? { WakeEmpties(r, t, u); }
  }

  /** A thread can always move unless it is done, asleep, or waiting for the lock. */
  lemma CanMove(s: State, t: nat)
    requires t < |s.threads| && Step(s, t) == s
    ensures var p := s.threads[t];
      p.Asleep? || p.Returned? || p.Signaled? || ((p.Enter? || p.Wake?) && s.holder != NOBODY)
  {
    assert Step(s, t).threads[t] == s.threads[t];
  }

  /** No deadlock: if the signal is set and no thread can move, every waiter has returned. */
  lemma StuckMeansDone(s: State, schedule: seq<nat>, t: nat)
    requires Initial(s) && forall i :: 0 <= i < |schedule| ==> schedule[i] < |s.threads|
    requires var r := Run(s, schedule); r.futex.locked && Stuck(r)
    requires t < |s.threads|
    ensures Run(s, schedule).threads[t].Returned? || Run(s, schedule).threads[t].Signaled?
  {
    RunKeepsInv(s, schedule);
    StuckIsDone(Run(s, schedule), t);
  }

  ghost predicate Stuck(r: State) { forall u :: 0 <= u < |r.threads| ==> Step(r, u) == r }

  lemma StuckIsDone(r: State, t: nat)
    requires Inv(r) && r.futex.locked && Stuck(r) && t < |r.threads|
    ensures Done(r.threads[t])
  {
    if r.holder != NOBODY {
      assert ThreadOk(r, r.holder);
      CanMove(r, r.holder);
    }
    forall u: nat | u < |r.threads| ensures !Pending(r.threads[u]) && !r.threads[u].Enter? { CanMove(r, u); }
    assert ThreadOk(r, t);
    CanMove(r, t);
  }

  // ---------------------------------------------------------------- progress

  predicate Done(p: Place) { p.Returned? || p.Signaled? }

  /** A bound on the moves that a thread still makes once the signal is set. */
  function Left(p: Place, f: Futex): nat {
    match p
    case Spin(_, _) => 2
    case Read => 1
    case TrySet(_) => 2
    case Enter => 3
    case ReadKernel => 2
    case ReadLocked(_) => 1
    case ToSleep => 2
    case Asleep => 1
    case Returned => 0
    case SigRead => if f.kernel then 7 else 2
    case SigTry(seen) => (if f.kernel then 6 else 1) + (if seen == f then 0 else 2)
    case ClearRead => if f.kernel then 5 else 1
    case ClearTry(_) => if f.kernel then 4 else 2
    case Wake => 3
    case WakeKernel => 2
    case WakeLocked(_) => 1
    case Signaled => 0
  }

  function AllLeft(ps: seq<Place>, f: Futex): nat {
    if ps == [] then 0 else AllLeft(ps[..|ps| - 1], f) + Left(ps[|ps| - 1], f)
  }

  lemma {:induction false} LessLeft(ps: seq<Place>, f: Futex, qs: seq<Place>, g: Futex, t: int)
    requires |ps| == |qs| && forall u :: 0 <= u < |ps| ==> Left(qs[u], g) <= Left(ps[u], f) - if u == t then 1 else 0
    ensures AllLeft(qs, g) <= AllLeft(ps, f) - if 0 <= t < |ps| then 1 else 0
  {
    if ps != [] { LessLeft(ps[..|ps| - 1], f, qs[..|ps| - 1], g, t); }
  }

  lemma {:induction false} LeftBound(ps: seq<Place>, f: Futex)
    ensures AllLeft(ps, f) <= 8 * |ps|
    ensures AllLeft(ps, f) == 0 ==> forall u :: 0 <= u < |ps| ==> Done(ps[u])
  {
    if ps != [] { LeftBound(ps[..|ps| - 1], f); }
  }

  /** Once the signal is set every move that does anything uses up one of the moves left. */
  lemma MoveUsesUp(s: State, t: nat)
    requires Inv(s) && s.futex.locked && t < |s.threads| && Step(s, t) != s
    ensures Step(s, t).futex.locked && AllLeft(Step(s, t).threads, Step(s, t).futex) < AllLeft(s.threads, s.futex)
  {
    var r := Step(s, t);
    assert ThreadOk(s, t);
    forall u: nat | u < |s.threads| ensures Left(r.threads[u], r.futex) <= Left(s.threads[u], s.futex) - if u == t then 1 else 0 {
      if u != t { OtherLeft(s, t, u); } else { OwnLeft(s, t); }
    }
    LessLeft(s.threads, s.futex, r.threads, r.futex, t);
  }

  lemma OwnLeft(s: State, t: nat)
    requires Inv(s) && s.futex.locked && t < |s.threads| && Step(s, t) != s
    ensures Left(Step(s, t).threads[t], Step(s, t).futex) < Left(s.threads[t], s.futex)
  {
    assert ThreadOk(s, t);
  }

  lemma OtherLeft(s: State, t: nat, u: nat)
    requires Inv(s) && s.futex.locked && t < |s.threads| && u < |s.threads| && u != t
    ensures Left(Step(s, t).threads[u], Step(s, t).futex) <= Left(s.threads[u], s.futex)
  {
    assert ThreadOk(s, t) && ThreadOk(s, u);
    if s.threads[t].WakeLocked? { WakeEmpties(s, t, u); }
  }

  /** Threads that move after the signal use up moves, or none of them could move at all. */
  lemma {:induction false} RunUsesUp(s: State, schedule: seq<nat>)
    requires Inv(s) && s.futex.locked && forall i :: 0 <= i < |schedule| ==> schedule[i] < |s.threads|
    ensures var r := Run(s, schedule);
      && Inv(r) && r.futex.locked && AllLeft(r.threads, r.futex) <= AllLeft(s.threads, s.futex)
      && (AllLeft(r.threads, r.futex) == AllLeft(s.threads, s.futex) ==>
            r == s && forall i :: 0 <= i < |schedule| ==> Step(s, schedule[i]) == s)
  {
    if schedule != [] {
      var before, t := schedule[..|schedule| - 1], schedule[|schedule| - 1];
      RunUsesUp(s, before);
      InvIsKept(s, schedule);
      var q := Run(s, before);
      if Step(q, t) != q { MoveUsesUp(q, t); }
      assert forall i :: 0 <= i < |before| ==> schedule[i] == before[i];
    }
  }

  lemma {:induction false} RunConcat(s: State, a: seq<nat>, b: seq<nat>)
    requires forall i :: 0 <= i < |a| ==> a[i] < |s.threads|
    requires forall i :: 0 <= i < |b| ==> b[i] < |s.threads|
    ensures (forall i :: 0 <= i < |a + b| ==> (a + b)[i] < |s.threads|) && Run(s, a + b) == Run(Run(s, a), b)
  {
    if b == [] {
      assert a + b == a;
    } else {
      var c := b[..|b| - 1];
      RunConcat(s, a, c);
      assert (a + b)[..|a + b| - 1] == a + c;
    }
  }

  lemma {:induction false} StuckStays(s: State, schedule: seq<nat>)
    requires Stuck(s) && forall i :: 0 <= i < |schedule| ==> schedule[i] < |s.threads|
    ensures Run(s, schedule) == s
  {
    if schedule != [] { StuckStays(s, schedule[..|schedule| - 1]); }
  }

  lemma {:induction false} RoundsUseUp(s: State, rounds: seq<seq<nat>>)
    requires Inv(s) && s.futex.locked && Fair(rounds, |s.threads|)
    ensures (FlatBelow(rounds, |s.threads|); var r := Run(s, Flat(rounds));
      Inv(r) && r.futex.locked && (Stuck(r) || AllLeft(r.threads, r.futex) + |rounds| <= AllLeft(s.threads, s.futex)))
  {
    if rounds != [] {
      var before, last := rounds[..|rounds| - 1], rounds[|rounds| - 1];
      RoundsUseUp(s, before);
      FlatBelow(before, |s.threads|);
      RunConcat(s, Flat(before), last);
      var q := Run(s, Flat(before));
      RunUsesUp(q, last);
      if Stuck(q) {
        StuckStays(q, last);
      } else if AllLeft(Run(q, last).threads, Run(q, last).futex) == AllLeft(q.threads, q.futex) {
        forall u: nat | u < |q.threads| ensures Step(q, u) == q { assert u in last; }
      }
    }
  }

  /** How often thread `t` moves. */
  ghost function Turns(schedule: seq<nat>, t: nat): nat { multiset(schedule)[t] }

  lemma TurnsMore(schedule: seq<nat>, t: nat)
    requires schedule != []
    ensures Turns(schedule, t) == Turns(schedule[..|schedule| - 1], t) + if schedule[|schedule| - 1] == t then 1 else 0
  {
    assert schedule == schedule[..|schedule| - 1] + [schedule[|schedule| - 1]];
  }

  /** Where a signaler stands before the signal is set, and how many moves it needs at most to set it. */
  ghost predicate Signaling(s: State, g: nat, moves: nat)
    requires g < |s.threads|
  {
    match s.threads[g]
    case SigRead => moves <= if s.futex.kernel then 2 else 0
    case SigTry(seen) => !seen.locked && moves <= (if seen == s.futex && seen.kernel then 3 else 1) && (seen == s.futex || s.futex.kernel)
    case _ => false
  }

  lemma SignalingStep(s: State, t: nat, g: nat, moves: nat)
    requires Inv(s) && t < |s.threads| && g < |s.threads| && !s.futex.locked && Signaling(s, g, moves)
    ensures var r := Step(s, t); r.futex.locked || Signaling(r, g, moves + if t == g then 1 else 0)
  {
    assert ThreadOk(s, t);
  }

  /** A signal call sets the signal within four moves of its own, whatever the other threads do. */
  lemma {:induction false} SignalArrives(s: State, schedule: seq<nat>, g: nat)
    requires Initial(s) && forall i :: 0 <= i < |schedule| ==> schedule[i] < |s.threads|
    requires g < |s.threads| && s.threads[g].SigRead?
    ensures var r := Run(s, schedule); r.futex.locked || (Signaling(r, g, Turns(schedule, g)) && Turns(schedule, g) < 4)
  {
    if schedule != [] {
      var before, t := schedule[..|schedule| - 1], schedule[|schedule| - 1];
      TurnsMore(schedule, g);
      SignalArrives(s, before, g);
      RunKeepsInv(s, before);
      if Run(s, before).futex.locked {
        assert ThreadOk(Run(s, before), t);
      } else {
        SignalingStep(Run(s, before), t, g, Turns(before, g));
      }
    }
  }

  lemma {:induction false} EachRoundCounts(rounds: seq<seq<nat>>, n: nat, g: nat)
    requires Fair(rounds, n) && g < n
    ensures Turns(Flat(rounds), g) >= |rounds|
  {
    if rounds != [] {
      EachRoundCounts(rounds[..|rounds| - 1], n, g);
      assert g in rounds[|rounds| - 1];
      assert g in multiset(rounds[|rounds| - 1]);
    }
  }

  /** If anyone signals and every thread goes on moving, every call returns: after four rounds the signal
      is set, and eight more for each thread are enough, however the threads are scheduled in them. */
  lemma EveryoneReturns(s: State, rounds: seq<seq<nat>>, g: nat, t: nat)
    requires Initial(s) && g < |s.threads| && s.threads[g].SigRead? && t < |s.threads|
    requires Fair(rounds, |s.threads|) && |rounds| >= 4 + 8 * |s.threads|
    ensures (FlatBelow(rounds, |s.threads|); Done(Run(s, Flat(rounds)).threads[t]))
  {
    var n := |s.threads|;
    var first, rest := rounds[..4], rounds[4..];
    assert first + rest == rounds;
    FlatConcat(first, rest);
    FlatBelow(first, n);
    FlatBelow(rest, n);
    RunConcat(s, Flat(first), Flat(rest));
    SignalArrives(s, Flat(first), g);
    EachRoundCounts(first, n, g);
    RunKeepsInv(s, Flat(first));
    var q := Run(s, Flat(first));
    RoundsUseUp(q, rest);
    LeftBound(q.threads, q.futex);
    var r := Run(q, Flat(rest));
    LeftBound(r.threads, r.futex);
    if Stuck(r) { StuckIsDone(r, t); }
  }

  /** Where a waiter with the spin limit `max` stands after `k` moves, as long as there is no signal. */
  ghost predicate Spinning(p: Place, max: int, k: nat) {
    if max < 0 || k <= max + 1 then p == Spin(k, max) else !p.Spin? && (k == max + 2 ==> p == Read)
  }

  lemma SpinStep(q: State, u: nat, t: nat, max: int, k: nat)
    requires Inv(q) && u < |q.threads| && t < |q.threads| && !Step(q, u).futex.locked
    requires !q.futex.locked ==> Spinning(q.threads[t], max, k)
    ensures Spinning(Step(q, u).threads[t], max, k + if u == t then 1 else 0)
  {
    assert ThreadOk(q, u);
  }

  /** A waiter looks at the word one time more than its limit before it turns to the kernel; with a negative
      limit it never does. */
  lemma {:induction false} SpinsOut(s: State, schedule: seq<nat>, t: nat)
    requires Initial(s) && forall i :: 0 <= i < |schedule| ==> schedule[i] < |s.threads|
    requires t < |s.threads| && s.threads[t].Spin? && s.threads[t].n == 0 && !Run(s, schedule).futex.locked
    ensures Spinning(Run(s, schedule).threads[t], s.threads[t].max, Turns(schedule, t))
  {
    if schedule != [] {
      var before, u := schedule[..|schedule| - 1], schedule[|schedule| - 1];
      TurnsMore(schedule, t);
      RunKeepsInv(s, before);
      if !Run(s, before).futex.locked { SpinsOut(s, before, t); }
      SpinStep(Run(s, before), u, t, s.threads[t].max, Turns(before, t));
    }
  }
}
