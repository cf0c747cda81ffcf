/** The barrier whose counter lives on the stack of the first thread to arrive.

    A fixed set of threads calls the barrier again and again.  Each step is one atomic access to
    the shared pointer or to a record; records are named by the thread whose stack they are on, so
    a thread that comes first twice uses the same record twice. */
module Barrier {
  import opened Common

  datatype Record = Record(count: int, release: bool)

  datatype Place =
    | Outside
    | Entering
    | Arriving(rec: int, first: bool)
    | FirstWait
    | FirstReset
    | FirstRelease
    | FirstDrain
    | OtherWait(rec: int)
    | OtherLeave(rec: int)

  const NOBODY: int := -1

  /** `shared` is the barrier's pointer.  The rest is history: how often each thread has arrived, who
      was first in each round, how many rounds are closed, and the first thread of the last closed
      round while it has not returned. */
  datatype State = State(shared: int, places: seq<Place>, records: seq<Record>,
                         rounds: seq<nat>, firsts: seq<nat>, closed: nat, last: int)

  function Step(s: State, t: nat): State
    requires t < |s.places| == |s.records| == |s.rounds|
    requires s.places[t].Arriving? || s.places[t].OtherWait? || s.places[t].OtherLeave? ==> 0 <= s.places[t].rec < |s.records|
  {
    match s.places[t]
    case Outside => Go(s, t, Entering).(records := s.records[t := Record(0, false)])
    case Entering =>
      if s.shared == NOBODY then Go(s, t, Arriving(t, true)).(shared := t, firsts := s.firsts + [t])
      else Go(s, t, Arriving(s.shared, false))
    case Arriving(q, first) =>
      Go(s, t, if first then FirstWait else OtherWait(q)).(
        records := s.records[q := s.records[q].(count := s.records[q].count + 1)], rounds := s.rounds[t := s.rounds[t] + 1])
    case FirstWait => if s.records[t].count == |s.places| then Go(s, t, FirstReset) else s
    case FirstReset => Go(s, t, FirstRelease).(shared := NOBODY, closed := s.closed + 1, last := t)
    case FirstRelease => Go(s, t, FirstDrain).(records := s.records[t := s.records[t].(release := true)])
    case FirstDrain => if s.records[t].count == 1 then Go(s, t, Outside).(last := NOBODY) else s
    case OtherWait(q) => if s.records[q].release then Go(s, t, OtherLeave(q)) else s
    case OtherLeave(q) => Go(s, t, Outside).(records := s.records[q := s.records[q].(count := s.records[q].count - 1)])
  }

  function Go(s: State, t: nat, p: Place): State
    requires t < |s.places|
  {
    s.(places := s.places[t := p])
  }

  function Start(total: nat): State {
    State(NOBODY, seq(total, _ => Outside), seq(total, _ => Record(0, false)), seq(total, _ => 0), [], 0, NOBODY)
  }

  // ---------------------------------------------------------------- invariant

  /** Has arrived in the open round. */
  predicate In(s: State, t: int) { 0 <= t < |s.rounds| && s.rounds[t] == s.closed + 1 }

  /** Has not yet left the closed round. */
  predicate Drains(s: State, t: int) {
    && 0 <= t < |s.places| && t < |s.rounds| && s.rounds[t] == s.closed
    && (s.places[t].FirstRelease? || s.places[t].FirstDrain? || s.places[t].OtherWait? || s.places[t].OtherLeave?)
  }

  ghost function Arrived(s: State): set<int> { set t: int | 0 <= t < |s.rounds| && In(s, t) }

  ghost function Draining(s: State): set<int> { set t: int | 0 <= t < |s.places| && Drains(s, t) }

  predicate Among(t: int, n: nat) { 0 <= t < n }

  ghost function Everyone(n: nat): set<int> { set t: int | 0 <= t < n && Among(t, n) }

  ghost predicate ThreadOk(s: State, t: int)
    requires 0 <= t < |s.places| == |s.records| == |s.rounds|
  {
    match s.places[t]
    case Outside => s.rounds[t] == s.closed
    case Entering => s.rounds[t] == s.closed && s.records[t] == Record(0, false)
    case Arriving(q, first) => s.rounds[t] == s.closed && q == s.shared != NOBODY && (first <==> q == t)
    case FirstWait => s.rounds[t] == s.closed + 1 && s.shared == t
    case FirstReset => s.rounds[t] == s.closed + 1 && s.shared == t && Arrived(s) == Everyone(|s.places|)
    case FirstRelease => s.rounds[t] == s.closed && s.last == t
    case FirstDrain => s.rounds[t] == s.closed && s.last == t
    case OtherWait(q) => q != t && q != NOBODY && if s.rounds[t] == s.closed then q == s.last else s.rounds[t] == s.closed + 1 && q == s.shared
    case OtherLeave(q) => s.rounds[t] == s.closed && q == s.last != t && 0 <= q < |s.places| && s.places[q].FirstDrain?
  }

  /** The open round: its record counts the arrivals. */
  ghost predicate OpenOk(s: State)
    requires |s.places| == |s.records| == |s.rounds|
  {
    if s.shared == NOBODY then Arrived(s) == {} && |s.firsts| == s.closed else
      && 0 <= s.shared < |s.places| && s.records[s.shared] == Record(|Arrived(s)|, false)
      && (s.places[s.shared] == Arriving(s.shared, true) || s.places[s.shared].FirstWait? || s.places[s.shared].FirstReset?)
      && |s.firsts| == s.closed + 1 && s.firsts[s.closed] == s.shared
  }

  /** The closed round: its record counts the threads that have not left. */
  ghost predicate ClosedOk(s: State)
    requires |s.places| == |s.records| == |s.rounds|
  {
    if s.last == NOBODY then Draining(s) == {} else
      && 0 <= s.last < |s.places| && s.records[s.last] == Record(|Draining(s)|, s.places[s.last].FirstDrain?)
      && (s.places[s.last].FirstRelease? || s.places[s.last].FirstDrain?)
      && 0 < s.closed <= |s.firsts| && s.firsts[s.closed - 1] == s.last
  }

  ghost predicate Inv(s: State) {
    && |s.places| == |s.records| == |s.rounds| > 1
    && NOBODY <= s.shared < |s.places| && NOBODY <= s.last < |s.places|
    && (forall t: int {:trigger ThreadOk(s, t)} :: 0 <= t < |s.places| ==> ThreadOk(s, t))
    && OpenOk(s) && ClosedOk(s)
  }

  // ---------------------------------------------------------------- sets of threads

  lemma {:induction false} EveryoneCounts(n: nat)
    ensures |Everyone(n)| == n
  {
    if n > 0 {
      EveryoneCounts(n - 1);
      assert Everyone(n) == Everyone(n - 1) + {n - 1};
    }
  }

  lemma {:induction false} AtMost(s: set<int>, n: nat)
    requires s <= Everyone(n)
    ensures |s| <= n
  {
    if n > 0 { AtMost(s - {n - 1}, n - 1); }
  }

  lemma {:induction false} AllOrFewer(s: set<int>, n: nat)
    requires s <= Everyone(n) && |s| == n
    ensures s == Everyone(n)
  {
    if n > 0 {
      if n - 1 !in s { AtMost(s, n - 1); }
      AllOrFewer(s - {n - 1}, n - 1);
    }
  }

  // ---------------------------------------------------------------- every step keeps the invariant

  lemma EnterKeeps(s: State, t: nat)
    requires Inv(s) && t < |s.places| && s.places[t].Outside?
    ensures Inv(Step(s, t))
  {
    var r := Step(s, t);
    assert ThreadOk(s, t);
    assert Arrived(r) == Arrived(s) && Draining(r) == Draining(s);
    forall u | 0 <= u < |r.places| ensures ThreadOk(r, u) { assert ThreadOk(s, u); }
  }

  lemma CasKeeps(s: State, t: nat)
    requires Inv(s) && t < |s.places| && s.places[t].Entering?
    ensures Inv(Step(s, t))
  {
    var r := Step(s, t);
    assert ThreadOk(s, t);
    assert Arrived(r) == Arrived(s) && Draining(r) == Draining(s);
    forall u | 0 <= u < |r.places| ensures ThreadOk(r, u) {
      assert ThreadOk(s, u);
      assert s.shared == NOBODY ==> u !in Arrived(s);
    }
  }

  lemma ArriveCounts(s: State, t: nat)
    requires |s.places| == |s.records| == |s.rounds| && t < |s.places|
    requires s.places[t].Arriving? && 0 <= s.places[t].rec < |s.places| && s.rounds[t] == s.closed
    ensures var r := Step(s, t); Arrived(r) == Arrived(s) + {t} && Draining(r) == Draining(s)
    ensures |Arrived(s) + {t}| == |Arrived(s)| + 1
  {
    var r := Step(s, t);
    assert t !in Arrived(s);
    forall u | 0 <= u < |s.places| ensures In(r, u) <==> In(s, u) || u == t { }
    forall u | 0 <= u < |s.places| ensures Drains(r, u) <==> Drains(s, u) { }
  }

  lemma ArriveKeeps(s: State, t: nat)
    requires Inv(s) && t < |s.places| && s.places[t].Arriving?
    ensures Step.requires(s, t) && Inv(Step(s, t))
  {
    assert ThreadOk(s, t);
    ArriveCounts(s, t);
    var r := Step(s, t);
    assert s.shared != s.last && t != s.last;
    forall u | 0 <= u < |r.places| ensures ThreadOk(r, u) {
      assert ThreadOk(s, u);
      assert t in Everyone(|s.places|);
    }
  }

  lemma FirstWaitKeeps(s: State, t: nat)
    requires Inv(s) && t < |s.places| && s.places[t].FirstWait?
    ensures Inv(Step(s, t))
  {
    var r := Step(s, t);
    assert ThreadOk(s, t);
    if s.records[t].count == |s.places| {
      assert Arrived(s) <= Everyone(|s.places|);
      AllOrFewer(Arrived(s), |s.places|);
      assert Arrived(r) == Arrived(s) && Draining(r) == Draining(s);
      forall u | 0 <= u < |r.places| ensures ThreadOk(r, u) { assert ThreadOk(s, u); }
    }
  }

  /** Closing the round: everyone is in it, so nobody is left in the one before. */
  lemma ResetKeeps(s: State, t: nat)
    requires Inv(s) && t < |s.places| && s.places[t].FirstReset?
    ensures Inv(Step(s, t))
  {
    var r := Step(s, t);
    assert ThreadOk(s, t);
    forall u | 0 <= u < |r.places| ensures r.rounds[u] == r.closed && Drains(r, u) && ThreadOk(r, u) {
      assert u in Everyone(|s.places|) && In(s, u);
      assert ThreadOk(s, u);
    }
    assert Arrived(r) == {} && Draining(r) == Everyone(|s.places|);
  }

  lemma ReleaseKeeps(s: State, t: nat)
    requires Inv(s) && t < |s.places| && s.places[t].FirstRelease?
    ensures Inv(Step(s, t))
  {
    var r := Step(s, t);
    assert ThreadOk(s, t);
    assert Arrived(r) == Arrived(s) && Draining(r) == Draining(s);
    forall u | 0 <= u < |r.places| ensures ThreadOk(r, u) { assert ThreadOk(s, u); }
  }

  lemma DrainKeeps(s: State, t: nat)
    requires Inv(s) && t < |s.places| && s.places[t].FirstDrain?
    ensures Inv(Step(s, t))
  {
    var r := Step(s, t);
    assert ThreadOk(s, t);
    if s.records[t].count == 1 {
      assert Drains(s, t) && t in Draining(s);
      OnlyOne(Draining(s), t);
      forall u | 0 <= u < |r.places| ensures ThreadOk(r, u) && !Drains(r, u) {
        assert ThreadOk(s, u);
        assert u != t ==> u !in Draining(s);
      }
      assert Arrived(r) == Arrived(s) && Draining(r) == {};
    }
  }

  lemma OnlyOne(s: set<int>, x: int)
    requires |s| == 1 && x in s
    ensures s == {x}
  {
    assert |s - {x}| == 0;
  }

  lemma OtherWaitKeeps(s: State, t: nat)
    requires Inv(s) && t < |s.places| && s.places[t].OtherWait?
    ensures Step.requires(s, t) && Inv(Step(s, t))
  {
    assert ThreadOk(s, t);
    var r := Step(s, t);
    if r != s {
      assert Arrived(r) == Arrived(s) && Draining(r) == Draining(s);
      forall u | 0 <= u < |r.places| ensures ThreadOk(r, u) { assert ThreadOk(s, u); }
    }
  }

  lemma OtherLeaveKeeps(s: State, t: nat)
    requires Inv(s) && t < |s.places| && s.places[t].OtherLeave?
    ensures Step.requires(s, t) && Inv(Step(s, t))
  {
    assert ThreadOk(s, t);
    var r := Step(s, t);
    assert Drains(s, t) && t in Draining(s);
    assert Arrived(r) == Arrived(s) && Draining(r) == Draining(s) - {t};
    forall u | 0 <= u < |r.places| ensures ThreadOk(r, u) { assert ThreadOk(s, u); }
  }

  lemma StepKeepsInv(s: State, t: nat)
    requires Inv(s) && t < |s.places|
    ensures Step.requires(s, t) && Inv(Step(s, t))
  {
    match s.places[t]
    case Outside => EnterKeeps(s, t);
    case Entering => CasKeeps(s, t);
    case Arriving(_, _) => ArriveKeeps(s, t);
    case FirstWait => FirstWaitKeeps(s, t);
    case FirstReset => ResetKeeps(s, t);
    case FirstRelease => ReleaseKeeps(s, t);
    case FirstDrain => DrainKeeps(s, t);
    case OtherWait(_) => OtherWaitKeeps(s, t);
    case OtherLeave(_) => OtherLeaveKeeps(s, t);
  }

  // ---------------------------------------------------------------- whole runs

  /** A run: each state follows from the one before by a step of some thread. */
  ghost predicate IsRun(run: seq<State>, total: nat) {
    && |run| > 0 && run[0] == Start(total)
    && forall i :: 0 <= i < |run| - 1 ==> Follows(run[i], run[i + 1])
  }

  ghost predicate Follows(s: State, r: State) {
    exists t: nat :: t < |s.places| && Step.requires(s, t) && r == Step(s, t)
  }

  lemma StartIsOk(total: nat)
    requires total > 1
    ensures Inv(Start(total)) && |Start(total).places| == total
  {
    var s := Start(total);
    assert Arrived(s) == {} && Draining(s) == {};
  }

  lemma {:induction false} RunKeepsInv(run: seq<State>, total: nat, i: nat)
    requires IsRun(run, total) && total > 1 && i < |run|
    ensures Inv(run[i]) && |run[i].places| == total
  {
    if i == 0 {
      StartIsOk(total);
    } else {
      RunKeepsInv(run, total, i - 1);
      assert Follows(run[i - 1], run[i]);
      var t: nat :| t < |run[i - 1].places| && Step.requires(run[i - 1], t) && run[i] == Step(run[i - 1], t);
      StepKeepsInv(run[i - 1], t);
    }
  }

  /** A thread that has left its r-th round proves that every thread has arrived in its r-th. */
  lemma NobodyLeavesEarly(run: seq<State>, total: nat, i: nat, t: nat, u: nat)
    requires IsRun(run, total) && total > 1 && i < |run|
    requires t < |run[i].places| && u < |run[i].places| && t < |run[i].rounds| && u < |run[i].rounds|
    requires run[i].places[t].Outside?
    ensures run[i].rounds[u] >= run[i].rounds[t]
  {
    RunKeepsInv(run, total, i);
    assert ThreadOk(run[i], t) && ThreadOk(run[i], u);
  }

  /** Nobody is ever more than one round ahead. */
  lemma RoundsStayTogether(run: seq<State>, total: nat, i: nat, t: nat, u: nat)
    requires IsRun(run, total) && total > 1 && i < |run|
    requires t < |run[i].rounds| && u < |run[i].rounds|
    ensures run[i].rounds[t] <= run[i].rounds[u] + 1
  {
    RunKeepsInv(run, total, i);
    assert ThreadOk(run[i], t) && ThreadOk(run[i], u);
  }

  /** The record a thread is about to access, other than to initialise its own. */
  function Touched(t: int, p: Place): int {
    match p
    case Outside => NOBODY
    case Entering => NOBODY
    case Arriving(q, _) => q
    case OtherWait(q) => q
    case OtherLeave(q) => q
    case FirstReset => NOBODY
    case _ => t
  }

  predicate IsFirst(p: Place) {
    (p.Arriving? && p.first) || p.FirstWait? || p.FirstReset? || p.FirstRelease? || p.FirstDrain?
  }

  /** The round a thread takes part in, counted from 0. */
  function RoundOf(s: State, t: int): int
    requires 0 <= t < |s.places| == |s.rounds|
  {
    var n: int := s.rounds[t];
    if s.places[t].Arriving? then n else n - 1
  }

  /** No dead record is touched: the thread whose stack it is on is still in the barrier, it is the
      first thread of the very round the toucher takes part in, and the only one of that round. */
  lemma TouchedRecordIsAlive(run: seq<State>, total: nat, i: nat, t: nat)
    requires IsRun(run, total) && total > 1 && i < |run|
    requires |run[i].places| == |run[i].rounds| && t < |run[i].places| && Touched(t, run[i].places[t]) != NOBODY
    ensures var s, q := run[i], Touched(t, run[i].places[t]);
      && 0 <= q < |s.places| && IsFirst(s.places[q]) && RoundOf(s, q) == RoundOf(s, t)
      && 0 <= RoundOf(s, t) < |s.firsts| && s.firsts[RoundOf(s, t)] == q
  {
    RunKeepsInv(run, total, i);
    assert ThreadOk(run[i], t);
    assert ThreadOk(run[i], Touched(t, run[i].places[t]));
  }

  // ---------------------------------------------------------------- progress

  lemma DrainerCanMove(s: State, t: int)
    requires Inv(s) && 0 <= t < |s.places| && t in Draining(s)
    ensures exists u: nat :: u < |s.places| && Step.requires(s, u) && Step(s, u) != s
  {
    assert ThreadOk(s, t) && ThreadOk(s, s.last);
    var u: nat := s.last;
    if s.places[u].FirstRelease? || (s.places[u].FirstDrain? && s.records[u].count == 1) {
      assert Step(s, u).places[u] != s.places[u];
    } else {
      assert Drains(s, u) && u in Draining(s);
      SomeoneElse(Draining(s), u);
      var v: int :| v in Draining(s) && v != u;
      assert ThreadOk(s, v);
      assert Step(s, v).places[v] != s.places[v];
    }
  }

  lemma SomeoneElse(s: set<int>, x: int)
    requires x in s && |s| != 1
    ensures exists y :: y in s && y != x
  {
    assert (forall y :: y in s ==> y == x) ==> s == {x};
  }

  lemma NotAllArrived(s: State)
    requires Inv(s) && |Arrived(s)| != |s.places|
    ensures exists u: int :: 0 <= u < |s.places| && s.rounds[u] == s.closed
  {
    EveryoneCounts(|s.places|);
    assert (forall u :: 0 <= u < |s.places| ==> In(s, u)) ==> Arrived(s) == Everyone(|s.places|);
    var u :| 0 <= u < |s.places| && !In(s, u);
    assert ThreadOk(s, u);
  }

  /** No deadlock: as long as threads outside keep coming, some thread can move. */
  lemma SomeoneCanMove(s: State)
    requires Inv(s)
    ensures exists u: nat :: u < |s.places| && Step.requires(s, u) && Step(s, u) != s
  {
    if s.shared != NOBODY && |Arrived(s)| == |s.places| {
      var u: nat := s.shared;
      assert ThreadOk(s, u);
      AllOrFewer(Arrived(s), |s.places|);
      assert u in Everyone(|s.places|) && In(s, u);
      assert Step(s, u).places[u] != s.places[u];
    } else {
      assert OpenOk(s) && (s.shared == NOBODY ==> Arrived(s) == {});
      NotAllArrived(s);
      var u: nat :| u < |s.places| && s.rounds[u] == s.closed;
      assert ThreadOk(s, u);
      if Drains(s, u) {
        assert u in Draining(s);
        DrainerCanMove(s, u);
      } else {
        assert Step(s, u).places[u] != s.places[u];
      }
    }
  }

  /** How far a thread has come: every move takes it on, and no other thread's move does. */
  ghost function Stage(s: State, t: nat): int
    requires t < |s.places| == |s.rounds|
  {
    7 * s.rounds[t] + match s.places[t]
      case Outside => 0
      case Entering => 1
      case Arriving(_, _) => 2
      case FirstWait => -4
      case FirstReset => -3
      case FirstRelease => -2
      case FirstDrain => -1
      case OtherWait(_) => -4
      case OtherLeave(_) => -3
  }

  /** How far the first `n` threads have come together. */
  ghost function Stages(s: State, n: nat): int
    requires n <= |s.places| == |s.rounds|
  {
    if n == 0 then 0 else Stages(s, n - 1) + Stage(s, n - 1)
  }

  lemma {:induction false} StagesGrow(s: State, r: State, t: nat, n: nat)
    requires n <= |s.places| == |s.rounds| == |r.places| == |r.rounds|
    requires forall u: nat :: u < n ==> Stage(r, u) >= Stage(s, u) + if u == t then 1 else 0
    ensures Stages(r, n) >= Stages(s, n) + if t < n then 1 else 0
  {
    if n > 0 { StagesGrow(s, r, t, n - 1); }
  }

  lemma {:induction false} StagesBound(s: State, n: nat, most: nat)
    requires n <= |s.places| == |s.rounds| && forall u: nat :: u < n ==> Stage(s, u) <= most
    ensures Stages(s, n) <= most * n
  {
    if n > 0 { StagesBound(s, n - 1, most); }
  }

  lemma StageAfter(s: State, t: nat, u: nat)
    requires Step.requires(s, t) && u < |s.places| && Step(s, t) != s
    ensures |Step(s, t).places| == |Step(s, t).rounds| == |s.places|
    ensures Stage(Step(s, t), u) >= Stage(s, u) + if u == t then 1 else 0
  {
  }

  lemma MoveAdvances(s: State, t: nat)
    requires Step.requires(s, t) && Step(s, t) != s
    ensures |Step(s, t).places| == |Step(s, t).rounds| == |s.places|
    ensures Stages(Step(s, t), |s.places|) > Stages(s, |s.places|)
  {
    StageAfter(s, t, t);
    forall u: nat | u < |s.places| ensures Stage(Step(s, t), u) >= Stage(s, u) + if u == t then 1 else 0 { StageAfter(s, t, u); }
    StagesGrow(s, Step(s, t), t, |s.places|);
  }

  /** The state after the given threads have moved, one at a time, in that order. */
  ghost function RunBy(s: State, schedule: seq<nat>): (r: State)
    requires Inv(s) && forall i :: 0 <= i < |schedule| ==> schedule[i] < |s.places|
    ensures Inv(r) && |r.places| == |s.places|
  {
    if schedule == [] then s else
      var before, t := RunBy(s, schedule[..|schedule| - 1]), schedule[|schedule| - 1];
      StepKeepsInv(before, t);
      Step(before, t)
  }

  /** Either the threads have come further or nothing has happened and none of them could move. */
  ghost predicate GotOn(s: State, r: State, schedule: seq<nat>)
    requires |s.places| == |s.rounds| == |r.places| == |r.rounds|
  {
    var n := |s.places|;
    Stages(r, n) > Stages(s, n) || (r == s && forall t :: t in schedule ==> Step.requires(s, t) && Step(s, t) == s)
  }

  lemma OneMore(s: State, q: State, schedule: seq<nat>, t: nat)
    requires |s.places| == |s.rounds| == |q.places| == |q.rounds| && Step.requires(q, t) && GotOn(s, q, schedule)
    ensures |Step(q, t).places| == |Step(q, t).rounds| == |s.places| && GotOn(s, Step(q, t), schedule + [t])
  {
    if Step(q, t) != q { MoveAdvances(q, t); }
  }

  lemma {:induction false} RunGetsOn(s: State, schedule: seq<nat>)
    requires Inv(s) && forall i :: 0 <= i < |schedule| ==> schedule[i] < |s.places|
    ensures GotOn(s, RunBy(s, schedule), schedule)
  {
    if schedule != [] {
      var before, t := schedule[..|schedule| - 1], schedule[|schedule| - 1];
      RunGetsOn(s, before);
      StepKeepsInv(RunBy(s, before), t);
      OneMore(s, RunBy(s, before), before, t);
      assert schedule == before + [t];
    }
  }

  lemma {:induction false} RunByConcat(s: State, a: seq<nat>, b: seq<nat>)
    requires Inv(s) && forall i :: 0 <= i < |a| ==> a[i] < |s.places|
    requires forall i :: 0 <= i < |b| ==> b[i] < |s.places|
    ensures (forall i :: 0 <= i < |a + b| ==> (a + b)[i] < |s.places|) && RunBy(s, a + b) == RunBy(RunBy(s, a), b)
  {
    if b == [] {
      assert a + b == a;
    } else {
      RunByConcat(s, a, b[..|b| - 1]);
      assert (a + b)[..|a + b| - 1] == a + b[..|b| - 1];
    }
  }

  lemma {:induction false} RoundsAdvance(s: State, rounds: seq<seq<nat>>)
    requires Inv(s) && Fair(rounds, |s.places|)
    ensures (FlatBelow(rounds, |s.places|); Stages(RunBy(s, Flat(rounds)), |s.places|) >= Stages(s, |s.places|) + |rounds|)
  {
    if rounds != [] {
      var before, last := rounds[..|rounds| - 1], rounds[|rounds| - 1];
      RoundsAdvance(s, before);
      FlatBelow(before, |s.places|);
      RunByConcat(s, Flat(before), last);
      var q := RunBy(s, Flat(before));
      RunGetsOn(q, last);
      SomeoneCanMove(q);
      var u: nat :| u < |q.places| && Step.requires(q, u) && Step(q, u) != q;
      assert u in last;
    }
  }

  lemma {:induction false} StartStages(total: nat, n: nat)
    requires n <= total
    ensures Stages(Start(total), n) == 0
  {
    if n > 0 { StartStages(total, n - 1); }
  }

  /** If every thread goes on moving, the barrier lets every thread arrive as often as it likes: for `k`
      arrivals of each it takes no more than 7(k + 1) rounds for each thread, however they are scheduled. */
  lemma EveryonePasses(total: nat, rounds: seq<seq<nat>>, k: nat, t: nat)
    requires total > 1 && t < total && Fair(rounds, total) && |rounds| >= 7 * (k + 1) * total
    ensures (StartIsOk(total); FlatBelow(rounds, total); RunBy(Start(total), Flat(rounds)).rounds[t] >= k)
  {
    StartIsOk(total);
    StartStages(total, total);
    RoundsAdvance(Start(total), rounds);
    FlatBelow(rounds, total);
    var r := RunBy(Start(total), Flat(rounds));
    var u := SomeoneIsFar(r, total, k);
    OthersFollow(r, u, t, k);
  }

  lemma SomeoneIsFar(r: State, n: nat, k: nat) returns (u: nat)
    requires n <= |r.places| == |r.rounds| && n > 0 && Stages(r, n) >= 7 * (k + 1) * n
    ensures u < n && Stage(r, u) > 7 * k + 6
  {
    assert (7 * k + 6) * n < 7 * (k + 1) * n;
    if forall u: nat :: u < n ==> Stage(r, u) <= 7 * k + 6 { StagesBound(r, n, 7 * k + 6); }
    u :| u < n && Stage(r, u) > 7 * k + 6;
  }

  lemma OthersFollow(r: State, u: nat, t: nat, k: nat)
    requires Inv(r) && u < |r.places| && t < |r.places| && Stage(r, u) > 7 * k + 6
    ensures r.rounds[t] >= k
  {
    assert ThreadOk(r, u) && ThreadOk(r, t);
  }
}
