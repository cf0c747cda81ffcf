/** The boot memory map: a sorted list of disjoint regions that is claimed from before the
    page allocator exists.  Tags are carried along but not tracked. */
module MemMap {

  datatype Span = Span(start: nat, size: nat, flags: int) {
    function End(): nat { start + size }
    predicate Contains(a: nat) { start <= a < start + size }
  }

  const MEMMAP_USABLE := 1
  const MEMMAP_USED := 2

  /** The type of an address that no entry covers. */
  const NO_ENTRY: int := -1

  ghost function FlagAt(es: seq<Span>, a: nat): int {
    if es == [] then NO_ENTRY else if es[0].Contains(a) then es[0].flags else FlagAt(es[1..], a)
  }

  ghost predicate Before(d: Span, e: Span) { d.End() <= e.start }

  ghost predicate Sorted(es: seq<Span>) {
    && (forall i :: 0 <= i < |es| ==> es[i].size > 0 && es[i].flags != NO_ENTRY)
    && (forall i, j {:trigger Before(es[i], es[j])} :: 0 <= i < j < |es| ==> Before(es[i], es[j]))
  }

  /** Entry `i` overlaps its successor. */
  ghost predicate Laps(es: seq<Span>, i: nat) { i + 1 < |es| && es[i + 1].start < es[i].End() }

  /** Two neighbours overlap. */
  ghost predicate Overlapping(es: seq<Span>) { exists i: nat :: Laps(es, i) }

  // ---------------------------------------------------------------- concatenation

  ghost predicate Typed(es: seq<Span>) { forall i :: 0 <= i < |es| ==> es[i].flags != NO_ENTRY }

  lemma {:induction false} FlagConcat(s: seq<Span>, t: seq<Span>, a: nat)
    requires Typed(s)
    ensures FlagAt(s + t, a) == if FlagAt(s, a) != NO_ENTRY then FlagAt(s, a) else FlagAt(t, a)
  {
    if s == [] {
      assert s + t == t;
    } else {
      assert (s + t)[1..] == s[1..] + t;
      assert Typed(s[1..]);
      FlagConcat(s[1..], t, a);
      if s[0].Contains(a) { assert s[0].flags != NO_ENTRY; }
    }
  }

  /** Replacing a stretch of the map changes types as the stretch does. */
  lemma FlagReplace(p: seq<Span>, s: seq<Span>, t: seq<Span>, q: seq<Span>, a: nat)
    requires Typed(p) && Typed(s) && Typed(t)
    ensures FlagAt(s, a) == FlagAt(t, a) ==> FlagAt(p + s + q, a) == FlagAt(p + t + q, a)
    ensures FlagAt(p, a) == NO_ENTRY && FlagAt(t, a) != NO_ENTRY ==> FlagAt(p + t + q, a) == FlagAt(t, a)
  {
    FlagConcat(p + s, q, a);
    FlagConcat(p, s, a);
    FlagConcat(p + t, q, a);
    FlagConcat(p, t, a);
  }

  lemma {:induction false} NotCovered(s: seq<Span>, a: nat)
    requires forall i :: 0 <= i < |s| ==> !s[i].Contains(a)
    ensures FlagAt(s, a) == NO_ENTRY
  {
    if s != [] {
      forall i | 0 <= i < |s[1..]| ensures !s[1..][i].Contains(a) { assert s[1..][i] == s[i + 1]; }
      NotCovered(s[1..], a);
    }
  }

  ghost predicate Bounded(s: seq<Span>, lo: nat, hi: nat) {
    forall i :: 0 <= i < |s| ==> lo <= s[i].start && s[i].End() <= hi
  }

  ghost predicate From(s: seq<Span>, lo: nat) { forall i :: 0 <= i < |s| ==> lo <= s[i].start }

  /** A stretch may be replaced by any sorted stretch that stays between its neighbours. */
  lemma SortedReplace(p: seq<Span>, t: seq<Span>, q: seq<Span>, lo: nat, hi: nat)
    requires Sorted(p) && Sorted(t) && Sorted(q) && lo <= hi
    requires Bounded(p, 0, lo) && Bounded(t, lo, hi) && From(q, hi)
    ensures Sorted(p + t + q)
  {
    var r := p + t + q;
    forall i, j | 0 <= i < j < |r| ensures Before(r[i], r[j]) {
      var m, n := |p|, |p| + |t|;
      if j < m {
        assert Before(p[i], p[j]);
      } else if j < n {
        if i >= m { assert Before(t[i - m], t[j - m]); }
      } else {
        if i >= n { assert Before(q[i - n], q[j - n]); }
      }
    }
  }

  /** The parts of a sorted map around position `i`. */
  lemma SortedParts(es: seq<Span>, i: nat)
    requires Sorted(es) && i < |es|
    ensures Sorted(es[..i]) && Sorted([es[i]]) && Sorted(es[i + 1..])
    ensures Bounded(es[..i], 0, es[i].start) && From(es[i + 1..], es[i].End())
    ensures es == es[..i] + [es[i]] + es[i + 1..]
  {
    forall j | 0 <= j < i ensures es[..i][j].End() <= es[i].start { assert Before(es[j], es[i]); }
    forall j, k | 0 <= j < k < i ensures Before(es[..i][j], es[..i][k]) { assert Before(es[j], es[k]); }
    var q := es[i + 1..];
    forall j | 0 <= j < |q| ensures es[i].End() <= q[j].start { assert Before(es[i], es[i + 1 + j]); }
    forall j, k | 0 <= j < k < |q| ensures Before(q[j], q[k]) { assert Before(es[i + 1 + j], es[i + 1 + k]); }
  }

  // ---------------------------------------------------------------- claiming

  datatype Outcome = Panic | Done(es: seq<Span>)

  function Spliced(es: seq<Span>, i: nat, t: seq<Span>): seq<Span>
    requires i < |es|
  {
    es[..i] + t + es[i + 1..]
  }

  /** What one turn of the claim loop leaves to the next, unless the map is full. */
  datatype Turn = Full | Next(es: seq<Span>, i: nat, cur: nat, sz: nat)

  /** One turn of the claim loop at entry `i`: `cur` and `sz` are the running start and size, `end`
      stays the end of the whole claim. */
  function ClaimTurn(es: seq<Span>, i: nat, cur: nat, sz: nat, end: nat, flags: int, slots: nat): Turn
    requires i < |es| <= slots && cur + sz <= end
  {
    var e := es[i];
    if end <= e.start then
      if |es| >= slots then Full else Next(Spliced(es, i, [Span(cur, sz, flags), e]), i + 1, cur, 0)
    else if cur < e.start then
      // The size is computed from the entry just overwritten, so it is always zero.
      if |es| >= slots then Full else Next(Spliced(es, i, [Span(cur, 0, flags), e]), i + 1, cur, sz)
    else if cur == e.start then
      if sz >= e.size then Next(Spliced(es, i, [e.(flags := flags)]), i + 1, cur + e.size, sz - e.size)
      else if |es| >= slots then Full
      else Next(Spliced(es, i, [Span(cur, sz, flags), Span(cur + sz, e.size - sz, e.flags)]), i + 1, cur, 0)
    else if cur < e.End() then
      if end >= e.End() then
        // The running start is not moved past the entry.
        if |es| >= slots then Full
        else Next(Spliced(es, i, [e.(size := cur - e.start), Span(cur, e.End() - cur, flags)]), i + 2, cur,
                  if sz >= e.End() - cur then sz - (e.End() - cur) else 0)
      else if |es| + 1 >= slots then Full
      else Next(Spliced(es, i, [e.(size := cur - e.start), Span(cur, end - cur, flags), e.(start := end, size := e.End() - end)]),
                i + 3, cur, 0)
    else Next(es, i + 1, cur, sz)
  }

  /** The claim loop from entry `i` on. */
  function ClaimLoop(es: seq<Span>, i: nat, cur: nat, sz: nat, end: nat, flags: int, slots: nat): Outcome
    requires |es| <= slots && cur + sz <= end
    decreases slots - |es|, |es| - i
  {
    if sz == 0 then Done(es)
    else if i >= |es| then
      if |es| >= slots then Panic else Done(es + [Span(cur, sz, flags)])
    else match ClaimTurn(es, i, cur, sz, end, flags, slots)
      case Full => Panic
      case Next(es', i', cur', sz') => ClaimLoop(es', i', cur', sz', end, flags, slots)
  }

  ghost predicate Overlaps(e: Span, lo: nat, hi: nat) { e.start < hi && lo < e.End() }

  /** The claim meets entry `j` at its start, right behind its predecessor, or lies inside it. */
  ghost predicate MeetsAt(es: seq<Span>, i: nat, j: nat, lo: nat, hi: nat)
    requires j < |es|
  {
    || es[j].start == lo
    || (lo < es[j].start && j > i && es[j - 1].End() == es[j].start)
    || (es[j].start < lo && hi <= es[j].End())
  }

  ghost predicate ClaimableFrom(es: seq<Span>, i: nat, lo: nat, hi: nat) {
    forall j: nat {:trigger MeetsAt(es, i, j, lo, hi)} :: i <= j < |es| && Overlaps(es[j], lo, hi) ==> MeetsAt(es, i, j, lo, hi)
  }

  /** A claim the loop can handle: it starts at the start of the first entry it touches or lies
      inside it, and no gap precedes any further entry it touches. */
  ghost predicate Claimable(es: seq<Span>, lo: nat, hi: nat) { ClaimableFrom(es, 0, lo, hi) }

  /** The map `t` is `s` with the addresses `lo .. hi` retyped. */
  ghost predicate Retyped(s: seq<Span>, t: seq<Span>, lo: nat, hi: nat, flags: int) {
    Sorted(t) && forall a: nat :: FlagAt(t, a) == if lo <= a < hi then flags else FlagAt(s, a)
  }

  /** Replaces entry `i` by a sorted stretch within the room between its neighbours. */
  lemma SplicedRetypes(es: seq<Span>, i: nat, t: seq<Span>, lo: nat, hi: nat, flags: int)
    requires Sorted(es) && i < |es| && Sorted(t) && lo <= hi && flags != NO_ENTRY
    requires Bounded(es[..i], 0, if lo < es[i].start then lo else es[i].start)
    requires Bounded(t, if lo < es[i].start then lo else es[i].start, es[i].End())
    requires hi <= es[i].End()
    requires forall a: nat :: FlagAt(t, a) == if lo <= a < hi then flags else FlagAt([es[i]], a)
    ensures Retyped(es, Spliced(es, i, t), lo, hi, flags)
  {
    SortedParts(es, i);
    SortedReplace(es[..i], t, es[i + 1..], if lo < es[i].start then lo else es[i].start, es[i].End());
    forall a: nat ensures FlagAt(Spliced(es, i, t), a) == if lo <= a < hi then flags else FlagAt(es, a) {
      FlagReplace(es[..i], [es[i]], t, es[i + 1..], a);
      if lo <= a < hi { NotCovered(es[..i], a); }
    }
  }

  lemma {:induction false} ClaimCorrect(es: seq<Span>, i: nat, cur: nat, sz: nat, end: nat, flags: int, slots: nat)
    requires Sorted(es) && |es| + 2 <= slots && i <= |es| && flags != NO_ENTRY
    requires cur + sz == end && Bounded(es[..i], 0, cur) && ClaimableFrom(es, i, cur, end)
    ensures var r := ClaimLoop(es, i, cur, sz, end, flags, slots); r.Done? && Retyped(es, r.es, cur, end, flags)
    decreases |es| - i
  {
    if sz == 0 {
    } else if i == |es| {
      ClaimAppends(es, cur, sz, flags);
    } else {
      var e := es[i];
      assert Overlaps(e, cur, end) ==> MeetsAt(es, i, i, cur, end);
      SortedParts(es, i);
      if end <= e.start {
        ClaimInserts(es, i, cur, sz, flags);
      } else if cur == e.start {
        if sz >= e.size {
          ClaimWhole(es, i, cur, sz, end, flags, slots);
        } else {
          ClaimHead(es, i, cur, sz, flags);
        }
      } else if cur < e.End() {
        ClaimInside(es, i, cur, end, flags, slots);
      } else {
        assert es[..i + 1] == es[..i] + [e];
        ClaimableNext(es, i, cur, end);
        ClaimCorrect(es, i + 1, cur, sz, end, flags, slots);
      }
    }
  }

  lemma ClaimAppends(es: seq<Span>, cur: nat, sz: nat, flags: int)
    requires Sorted(es) && sz > 0 && flags != NO_ENTRY && Bounded(es, 0, cur)
    ensures Retyped(es, es + [Span(cur, sz, flags)], cur, cur + sz, flags)
  {
    var t := [Span(cur, sz, flags)];
    SortedReplace(es, t, [], cur, cur + sz);
    assert es + t + [] == es + t;
    forall a: nat ensures FlagAt(es + t, a) == if cur <= a < cur + sz then flags else FlagAt(es, a) {
      FlagConcat(es, t, a);
      if cur <= a < cur + sz { NotCovered(es, a); }
    }
  }

  lemma ClaimInserts(es: seq<Span>, i: nat, cur: nat, sz: nat, flags: int)
    requires Sorted(es) && i < |es| && sz > 0 && flags != NO_ENTRY
    requires Bounded(es[..i], 0, cur) && cur + sz <= es[i].start
    ensures Retyped(es, Spliced(es, i, [Span(cur, sz, flags), es[i]]), cur, cur + sz, flags)
  {
    var t := [Span(cur, sz, flags), es[i]];
    assert Before(t[0], t[1]);
    assert t[1..] == [es[i]];
    SplicedRetypes(es, i, t, cur, cur + sz, flags);
  }

  lemma ClaimHead(es: seq<Span>, i: nat, cur: nat, sz: nat, flags: int)
    requires Sorted(es) && i < |es| && 0 < sz < es[i].size && flags != NO_ENTRY && cur == es[i].start
    ensures Retyped(es, Spliced(es, i, [Span(cur, sz, flags), Span(cur + sz, es[i].size - sz, es[i].flags)]), cur, cur + sz, flags)
  {
    var t := [Span(cur, sz, flags), Span(cur + sz, es[i].size - sz, es[i].flags)];
    SortedParts(es, i);
    assert Before(t[0], t[1]);
    forall a: nat ensures FlagAt(t, a) == if cur <= a < cur + sz then flags else FlagAt([es[i]], a) {
      assert t[1..] == [t[1]] && t[1..][1..] == [] && [es[i]][1..] == [];
    }
    SplicedRetypes(es, i, t, cur, cur + sz, flags);
  }

  lemma RetypeWhole(es: seq<Span>, i: nat, flags: int)
    requires Sorted(es) && i < |es| && flags != NO_ENTRY
    ensures Retyped(es, Spliced(es, i, [es[i].(flags := flags)]), es[i].start, es[i].End(), flags)
  {
    var t := [es[i].(flags := flags)];
    SortedParts(es, i);
    forall a: nat ensures FlagAt(t, a) == if es[i].start <= a < es[i].End() then flags else FlagAt([es[i]], a) {
      assert t[1..] == [] && [es[i]][1..] == [];
    }
    SplicedRetypes(es, i, t, es[i].start, es[i].End(), flags);
  }

  lemma ClaimableNext(es: seq<Span>, i: nat, cur: nat, end: nat)
    requires Sorted(es) && i < |es| && ClaimableFrom(es, i, cur, end) && es[i].End() <= cur
    ensures ClaimableFrom(es, i + 1, cur, end)
  {
    forall j: nat | i + 1 <= j < |es| && Overlaps(es[j], cur, end) ensures MeetsAt(es, i + 1, j, cur, end) {
      assert MeetsAt(es, i, j, cur, end);
    }
  }

  lemma RetypeTwice(s: seq<Span>, t: seq<Span>, u: seq<Span>, lo: nat, mid: nat, hi: nat, flags: int)
    requires Retyped(s, t, lo, mid, flags) && Retyped(t, u, mid, hi, flags) && lo <= mid <= hi
    ensures Retyped(s, u, lo, hi, flags)
  {
  }

  lemma ClaimableRest(es: seq<Span>, t: seq<Span>, i: nat, end: nat, flags: int)
    requires Sorted(es) && i < |es| && t == Spliced(es, i, [es[i].(flags := flags)])
    requires ClaimableFrom(es, i, es[i].start, end) && es[i].End() <= end
    ensures ClaimableFrom(t, i + 1, es[i].End(), end) && Bounded(t[..i + 1], 0, es[i].End())
  {
    SortedParts(es, i);
    assert t[..i + 1] == es[..i] + [es[i].(flags := flags)];
    forall j: nat | i + 1 <= j < |t| && Overlaps(t[j], es[i].End(), end) ensures MeetsAt(t, i + 1, j, es[i].End(), end) {
      assert t[j] == es[j];
      assert Before(es[i], es[j]);
      assert MeetsAt(es, i, j, es[i].start, end);
    }
  }

  lemma ClaimWhole(es: seq<Span>, i: nat, cur: nat, sz: nat, end: nat, flags: int, slots: nat)
    requires Sorted(es) && |es| + 2 <= slots && i < |es| && flags != NO_ENTRY
    requires cur + sz == end && ClaimableFrom(es, i, cur, end) && cur == es[i].start && sz >= es[i].size
    ensures var r := ClaimLoop(es, i, cur, sz, end, flags, slots); r.Done? && Retyped(es, r.es, cur, end, flags)
    decreases |es| - i, 0
  {
    var e := es[i];
    var t := Spliced(es, i, [e.(flags := flags)]);
    assert Sorted(t) by { RetypeWhole(es, i, flags); }
    ClaimableRest(es, t, i, end, flags);
    WholeTurn(es, i, sz, end, flags, slots);
    ClaimCorrect(t, i + 1, e.End(), sz - e.size, end, flags, slots);
    WholeThenRest(es, i, ClaimLoop(t, i + 1, e.End(), sz - e.size, end, flags, slots).es, end, flags);
  }

  lemma WholeThenRest(es: seq<Span>, i: nat, u: seq<Span>, end: nat, flags: int)
    requires Sorted(es) && i < |es| && flags != NO_ENTRY && es[i].End() <= end
    requires Retyped(Spliced(es, i, [es[i].(flags := flags)]), u, es[i].End(), end, flags)
    ensures Retyped(es, u, es[i].start, end, flags)
  {
    RetypeWhole(es, i, flags);
    RetypeTwice(es, Spliced(es, i, [es[i].(flags := flags)]), u, es[i].start, es[i].End(), end, flags);
  }

  lemma WholeTurn(es: seq<Span>, i: nat, sz: nat, end: nat, flags: int, slots: nat)
    requires i < |es| <= slots && sz > 0 && es[i].start + sz == end && sz >= es[i].size
    ensures ClaimLoop(es, i, es[i].start, sz, end, flags, slots) ==
      ClaimLoop(Spliced(es, i, [es[i].(flags := flags)]), i + 1, es[i].End(), sz - es[i].size, end, flags, slots)
  {
  }

  lemma ClaimInside(es: seq<Span>, i: nat, cur: nat, end: nat, flags: int, slots: nat)
    requires Sorted(es) && |es| + 2 <= slots && i < |es| && flags != NO_ENTRY
    requires es[i].start < cur < end <= es[i].End()
    ensures var r := ClaimLoop(es, i, cur, end - cur, end, flags, slots); r.Done? && Retyped(es, r.es, cur, end, flags)
  {
    if end == es[i].End() {
      ClaimTail(es, i, cur, flags);
    } else {
      ClaimMiddle(es, i, cur, end, flags);
    }
  }

  lemma ClaimTail(es: seq<Span>, i: nat, cur: nat, flags: int)
    requires Sorted(es) && i < |es| && flags != NO_ENTRY && es[i].start < cur < es[i].End()
    ensures Retyped(es, Spliced(es, i, [es[i].(size := cur - es[i].start), Span(cur, es[i].End() - cur, flags)]), cur, es[i].End(), flags)
  {
    var e := es[i];
    var t := [e.(size := cur - e.start), Span(cur, e.End() - cur, flags)];
    SortedParts(es, i);
    assert Before(t[0], t[1]);
    forall a: nat ensures FlagAt(t, a) == if cur <= a < e.End() then flags else FlagAt([e], a) {
      assert [e][1..] == [] && t[1..] == [t[1]] && t[1..][1..] == [];
    }
    SplicedRetypes(es, i, t, cur, e.End(), flags);
  }

  lemma ClaimMiddle(es: seq<Span>, i: nat, cur: nat, end: nat, flags: int)
    requires Sorted(es) && i < |es| && flags != NO_ENTRY && es[i].start < cur < end < es[i].End()
    ensures Retyped(es, Spliced(es, i, [es[i].(size := cur - es[i].start), Span(cur, end - cur, flags),
                                        es[i].(start := end, size := es[i].End() - end)]), cur, end, flags)
  {
    var e := es[i];
    var t := [e.(size := cur - e.start), Span(cur, end - cur, flags), e.(start := end, size := e.End() - end)];
    SortedParts(es, i);
    assert Before(t[0], t[1]) && Before(t[0], t[2]) && Before(t[1], t[2]);
    forall a: nat ensures FlagAt(t, a) == if cur <= a < end then flags else FlagAt([e], a) {
      assert [e][1..] == [] && t[1..] == [t[1], t[2]] && [t[1], t[2]][1..] == [t[2]] && [t[2]][1..] == [];
      assert FlagAt([t[2]], a) == if t[2].Contains(a) then e.flags else NO_ENTRY;
    }
    SplicedRetypes(es, i, t, cur, end, flags);
  }

  // ---------------------------------------------------------------- claims the loop cannot handle

  /** A gap in front of a touched entry makes the loop insert empty entries until the map is full. */
  lemma {:induction false} GapPanics(es: seq<Span>, i: nat, cur: nat, sz: nat, end: nat, flags: int, slots: nat)
    requires |es| <= slots && cur + sz <= end && i < |es| && sz > 0 && cur < es[i].start < end
    ensures ClaimLoop(es, i, cur, sz, end, flags, slots) == Panic
    decreases slots - |es|
  {
    if |es| < slots {
      GapPanics(Spliced(es, i, [Span(cur, 0, flags), es[i]]), i + 1, cur, sz, end, flags, slots);
    }
  }

  lemma {:induction false} ClaimFails(es: seq<Span>, i: nat, cur: nat, sz: nat, end: nat, flags: int, slots: nat)
    requires Sorted(es) && |es| <= slots && i <= |es| && flags != NO_ENTRY
    requires cur + sz == end && !ClaimableFrom(es, i, cur, end)
    ensures var r := ClaimLoop(es, i, cur, sz, end, flags, slots); r == Panic || Overlapping(r.es)
    decreases |es| - i
  {
    var k: nat :| i <= k < |es| && Overlaps(es[k], cur, end) && !MeetsAt(es, i, k, cur, end);
    var e := es[i];
    if k > i { assert Before(es[i], es[k]); }
    if cur < e.start {
      GapPanics(es, i, cur, sz, end, flags, slots);
    } else if cur == e.start {
      WholeFails(es, i, k, cur, sz, end, flags, slots);
    } else if cur < e.End() {
      SplitFails(es, i, cur, sz, end, flags, slots);
    } else {
      assert !MeetsAt(es, i + 1, k, cur, end);
      ClaimFails(es, i + 1, cur, sz, end, flags, slots);
    }
  }

  lemma WholeFails(es: seq<Span>, i: nat, k: nat, cur: nat, sz: nat, end: nat, flags: int, slots: nat)
    requires Sorted(es) && |es| <= slots && i < k < |es| && cur + sz == end && cur == es[i].start && flags != NO_ENTRY
    requires Overlaps(es[k], cur, end) && !MeetsAt(es, i, k, cur, end)
    ensures var r := ClaimLoop(es, i, cur, sz, end, flags, slots); r == Panic || Overlapping(r.es)
    decreases |es| - i, 0
  {
    var e := es[i];
    assert Before(e, es[k]);
    var t := Spliced(es, i, [e.(flags := flags)]);
    RetypeWhole(es, i, flags);
    assert t[k] == es[k] && t[k - 1].End() == es[k - 1].End();
    assert k > i + 1 ==> Before(e, es[i + 1]) && Before(es[i + 1], es[k]);
    assert !MeetsAt(t, i + 1, k, e.End(), end);
    ClaimFails(t, i + 1, e.End(), sz - e.size, end, flags, slots);
    WholeTurn(es, i, sz, end, flags, slots);
  }

  /** A claim that starts inside an entry and runs past it puts its rest over its own first part. */
  lemma SplitFails(es: seq<Span>, i: nat, cur: nat, sz: nat, end: nat, flags: int, slots: nat)
    requires Sorted(es) && |es| <= slots && i < |es| && cur + sz == end
    requires es[i].start < cur < es[i].End() < end
    ensures var r := ClaimLoop(es, i, cur, sz, end, flags, slots); r == Panic || Overlapping(r.es)
  {
    if |es| < slots {
      var t := Spliced(es, i, [es[i].(size := cur - es[i].start), Span(cur, es[i].End() - cur, flags)]);
      assert t[i + 1] == Span(cur, es[i].End() - cur, flags);
      if i + 1 < |es| { assert t[i + 2] == es[i + 1] && Before(es[i], es[i + 1]); }
      InsertOverlaps(t, i + 2, cur, end - es[i].End(), end, flags, slots);
      assert ClaimTurn(es, i, cur, sz, end, flags, slots) == Next(t, i + 2, cur, end - es[i].End());
    }
  }

  /** The rest of a claim is inserted over the entry before it, or the map runs full. */
  lemma InsertOverlaps(es: seq<Span>, i: nat, cur: nat, sz: nat, end: nat, flags: int, slots: nat)
    requires 0 < i <= |es| <= slots && cur + sz <= end && sz > 0 && cur < es[i - 1].End()
    requires i < |es| ==> cur < es[i].start
    ensures var r := ClaimLoop(es, i, cur, sz, end, flags, slots); r == Panic || Overlapping(r.es)
  {
    if i < |es| && es[i].start < end {
      GapPanics(es, i, cur, sz, end, flags, slots);
    } else if |es| < slots {
      var t := es[..i] + [Span(cur, sz, flags)] + es[i..];
      assert i < |es| ==> t == Spliced(es, i, [Span(cur, sz, flags), es[i]]);
      assert i == |es| ==> t == es + [Span(cur, sz, flags)];
      assert t[i - 1] == es[i - 1] && t[i].start == cur;
      assert Laps(t, i - 1);
    }
  }

  // ---------------------------------------------------------------- merging

  /** Joins neighbours that touch and have the same type, from entry `i` on. */
  function MergeFrom(es: seq<Span>, i: nat): seq<Span>
    decreases |es|, |es| - i
  {
    if i + 1 >= |es| then es
    else if es[i].End() == es[i + 1].start && es[i].flags == es[i + 1].flags then
      MergeFrom(Join(es, i), i)
    else MergeFrom(es, i + 1)
  }

  function Join(es: seq<Span>, i: nat): seq<Span>
    requires i + 1 < |es|
  {
    es[..i] + [es[i].(size := es[i].size + es[i + 1].size)] + es[i + 2..]
  }

  lemma {:induction false} MergeRetypes(es: seq<Span>, i: nat)
    requires Sorted(es)
    ensures Sorted(MergeFrom(es, i)) && forall a: nat :: FlagAt(MergeFrom(es, i), a) == FlagAt(es, a)
    decreases |es|, |es| - i
  {
    if i + 1 < |es| {
      if es[i].End() == es[i + 1].start && es[i].flags == es[i + 1].flags {
        JoinRetypes(es, i);
        MergeRetypes(Join(es, i), i);
      } else {
        MergeRetypes(es, i + 1);
      }
    }
  }

  lemma JoinRetypes(es: seq<Span>, i: nat)
    requires Sorted(es) && i + 1 < |es| && es[i].End() == es[i + 1].start && es[i].flags == es[i + 1].flags
    ensures Sorted(Join(es, i)) && forall a: nat :: FlagAt(Join(es, i), a) == FlagAt(es, a)
  {
    JoinSorted(es, i);
    forall a: nat ensures FlagAt(Join(es, i), a) == FlagAt(es, a) { JoinKeepsFlag(es, i, a); }
  }

  lemma JoinKeepsFlag(es: seq<Span>, i: nat, a: nat)
    requires Typed(es) && i + 1 < |es| && es[i].End() == es[i + 1].start && es[i].flags == es[i + 1].flags
    ensures FlagAt(Join(es, i), a) == FlagAt(es, a)
  {
    var p, q, s := es[..i], es[i + 2..], [es[i], es[i + 1]];
    assert es == p + s + q;
    JoinFlags(es[i], es[i + 1], a);
    FlagReplace(p, s, [es[i].(size := es[i].size + es[i + 1].size)], q, a);
  }

  lemma JoinFlags(d: Span, e: Span, a: nat)
    requires d.End() == e.start && d.flags == e.flags
    ensures FlagAt([d, e], a) == FlagAt([d.(size := d.size + e.size)], a)
  {
    assert [d, e][1..] == [e] && [e][1..] == [] && [d.(size := d.size + e.size)][1..] == [];
  }

  lemma JoinSorted(es: seq<Span>, i: nat)
    requires Sorted(es) && i + 1 < |es| && es[i].End() == es[i + 1].start
    ensures Sorted(Join(es, i))
  {
    var t := Join(es, i);
    forall j, k | 0 <= j < k < |t| ensures Before(t[j], t[k]) {
      var j', k' := if j <= i then j else j + 1, if k <= i then k else k + 1;
      assert Before(es[j'], es[k']);
      assert j == i ==> Before(es[i + 1], es[k']);
    }
  }

  /** Entries `i` and `i + 1` touch and have the same type. */
  predicate Mergeable(es: seq<Span>, i: nat) { i + 1 < |es| && es[i].End() == es[i + 1].start && es[i].flags == es[i + 1].flags }

  /** There is nothing left to merge. */
  ghost predicate Merged(es: seq<Span>) { forall i: nat :: !Mergeable(es, i) }

  /** Merging leaves no two neighbours that touch and have the same type. */
  lemma {:induction false} MergeMerges(es: seq<Span>, i: nat)
    requires forall j: nat :: j < i ==> !Mergeable(es, j)
    ensures Merged(MergeFrom(es, i))
    decreases |es|, |es| - i
  {
    if i + 1 < |es| {
      if Mergeable(es, i) {
        forall j: nat | j < i ensures !Mergeable(Join(es, i), j) { assert !Mergeable(es, j); }
        MergeMerges(Join(es, i), i);
      } else {
        MergeMerges(es, i + 1);
      }
    }
  }

  lemma FirstFlag(es: seq<Span>, a: nat)
    requires Sorted(es) && es != []
    ensures FlagAt(es, a) != NO_ENTRY ==> es[0].start <= a
    ensures FlagAt(es[1..], a) == if a < es[0].End() then NO_ENTRY else FlagAt(es, a)
  {
    SortedParts(es, 0);
    if a < es[0].End() { BelowAll(es[1..], es[0].End(), a); }
    assert es[..0] == [];
  }

  lemma {:induction false} BelowAll(es: seq<Span>, lo: nat, a: nat)
    requires From(es, lo) && a < lo
    ensures FlagAt(es, a) == NO_ENTRY
  {
    if es != [] { BelowAll(es[1..], lo, a); }
  }

  /** The end of the first entry is where its type ends. */
  lemma FirstEnds(s: seq<Span>, t: seq<Span>)
    requires Sorted(s) && Sorted(t) && s != [] && t != []
    requires forall a: nat :: FlagAt(s, a) == FlagAt(t, a)
    requires s[0].start == t[0].start && s[0].flags == t[0].flags
    ensures t[0].End() <= s[0].End() || Mergeable(s, 0)
  {
    var a := s[0].End();
    if a < t[0].End() {
      assert FlagAt(t, a) == t[0].flags;
      FirstFlag(s, a);
      SortedParts(s, 0);
      FirstFlag(s[1..], a);
      assert s[1..][0] == s[1] && Before(s[0], s[1]);
    }
  }

  /** A merged map is determined by the types of the addresses. */
  lemma {:induction false} SameTypesSameMap(s: seq<Span>, t: seq<Span>)
    requires Sorted(s) && Sorted(t) && Merged(s) && Merged(t) && forall a: nat :: FlagAt(s, a) == FlagAt(t, a)
    ensures s == t
  {
    assert s != [] ==> FlagAt(s, s[0].start) == s[0].flags;
    assert t != [] ==> FlagAt(t, t[0].start) == t[0].flags;
    if s != [] {
      FirstAgree(s, t);
      FirstEnds(s, t);
      FirstEnds(t, s);
      assert !Mergeable(s, 0) && !Mergeable(t, 0);
      TailMerged(s);
      TailMerged(t);
      forall a: nat ensures FlagAt(s[1..], a) == FlagAt(t[1..], a) { FirstFlag(s, a); FirstFlag(t, a); }
      SameTypesSameMap(s[1..], t[1..]);
    }
  }

  lemma FirstAgree(s: seq<Span>, t: seq<Span>)
    requires Sorted(s) && Sorted(t) && s != [] && t != [] && forall a: nat :: FlagAt(s, a) == FlagAt(t, a)
    ensures s[0].start == t[0].start && s[0].flags == t[0].flags
  {
    assert FlagAt(s, s[0].start) == s[0].flags;
    assert FlagAt(t, t[0].start) == t[0].flags;
    FirstFlag(s, t[0].start);
    FirstFlag(t, s[0].start);
  }

  lemma TailMerged(s: seq<Span>)
    requires Sorted(s) && Merged(s) && s != []
    ensures Sorted(s[1..]) && Merged(s[1..])
  {
    SortedParts(s, 0);
    forall i: nat ensures !Mergeable(s[1..], i) { assert !Mergeable(s, i + 1); }
  }

  lemma JoinKeepsOverlap(es: seq<Span>, i: nat)
    requires Overlapping(es) && i + 1 < |es| && es[i].End() == es[i + 1].start
    ensures Overlapping(Join(es, i))
  {
    var k: nat :| Laps(es, k);
    var t := Join(es, i);
    var k' := if k <= i then k else k - 1;
    assert t[k'].End() == es[if k' == i then i + 1 else k].End();
    assert t[k' + 1].start == es[if k < i then k + 1 else k' + 2].start;
    assert Laps(t, k');
  }

  lemma {:induction false} MergeKeepsOverlap(es: seq<Span>, i: nat)
    requires Overlapping(es)
    ensures Overlapping(MergeFrom(es, i))
    decreases |es|, |es| - i
  {
    if i + 1 < |es| {
      if es[i].End() == es[i + 1].start && es[i].flags == es[i + 1].flags {
        JoinKeepsOverlap(es, i);
        MergeKeepsOverlap(Join(es, i), i);
      } else {
        MergeKeepsOverlap(es, i + 1);
      }
    }
  }

  // ---------------------------------------------------------------- the whole claim

  function ClaimRegion(es: seq<Span>, start: nat, size: nat, flags: int, slots: nat): Outcome
    requires |es| <= slots
  {
    match ClaimLoop(es, 0, start, size, start + size, flags, slots)
    case Panic => Panic
    case Done(t) => Done(MergeFrom(t, 0))
  }

  /** On a sorted map with room for two more entries, a claim retypes exactly its own addresses
      and leaves the map sorted if and only if it is claimable; all other claims end in a panic or
      in a map with overlapping entries. */
  lemma ClaimWorksIffClaimable(es: seq<Span>, start: nat, size: nat, flags: int, slots: nat)
    requires Sorted(es) && |es| + 2 <= slots && flags != NO_ENTRY
    ensures var r := ClaimRegion(es, start, size, flags, slots);
      && (Claimable(es, start, start + size) <==> r.Done? && Retyped(es, r.es, start, start + size, flags))
      && (r.Done? ==> Merged(r.es))
      && (!Claimable(es, start, start + size) ==> r == Panic || Overlapping(r.es))
  {
    var u := ClaimLoop(es, 0, start, size, start + size, flags, slots);
    if u.Done? { MergeMerges(u.es, 0); }
    if Claimable(es, start, start + size) {
      ClaimCorrect(es, 0, start, size, start + size, flags, slots);
      MergeRetypes(ClaimLoop(es, 0, start, size, start + size, flags, slots).es, 0);
    } else {
      ClaimFails(es, 0, start, size, start + size, flags, slots);
      var r := ClaimLoop(es, 0, start, size, start + size, flags, slots);
      if r.Done? {
        MergeKeepsOverlap(r.es, 0);
        OverlapIsUnsorted(MergeFrom(r.es, 0));
      }
    }
  }

  /** Merging depends on the types of the addresses alone ... */
  lemma SameTypesSameMerge(s: seq<Span>, t: seq<Span>)
    requires Sorted(s) && Sorted(t) && forall a: nat :: FlagAt(s, a) == FlagAt(t, a)
    ensures MergeFrom(s, 0) == MergeFrom(t, 0)
  {
    MergeRetypes(s, 0);
    MergeRetypes(t, 0);
    MergeMerges(s, 0);
    MergeMerges(t, 0);
    SameTypesSameMap(MergeFrom(s, 0), MergeFrom(t, 0));
  }

  /** ... and so does the map after a claim, however its entries were cut before. */
  lemma ClaimIsDetermined(s: seq<Span>, t: seq<Span>, start: nat, size: nat, flags: int, slots: nat)
    requires Sorted(s) && Sorted(t) && (forall a: nat :: FlagAt(s, a) == FlagAt(t, a)) && flags != NO_ENTRY
    requires |s| + 2 <= slots && |t| + 2 <= slots && Claimable(s, start, start + size) && Claimable(t, start, start + size)
    ensures ClaimRegion(s, start, size, flags, slots) == ClaimRegion(t, start, size, flags, slots)
  {
    ClaimCorrect(s, 0, start, size, start + size, flags, slots);
    ClaimCorrect(t, 0, start, size, start + size, flags, slots);
    SameTypesSameMerge(ClaimLoop(s, 0, start, size, start + size, flags, slots).es,
                       ClaimLoop(t, 0, start, size, start + size, flags, slots).es);
  }

  lemma OverlapIsUnsorted(es: seq<Span>)
    requires Overlapping(es)
    ensures !Sorted(es)
  {
    var i: nat :| Laps(es, i);
    assert !Before(es[i], es[i + 1]);
  }

  /** A claim inside one entry, or apart from all of them, is claimable. */
  lemma InsideOrApartIsClaimable(es: seq<Span>, lo: nat, hi: nat)
    requires Sorted(es) && lo <= hi
    requires (exists k :: 0 <= k < |es| && es[k].start <= lo && hi <= es[k].End()) || (forall k :: 0 <= k < |es| ==> !Overlaps(es[k], lo, hi))
    ensures Claimable(es, lo, hi)
  {
    forall j: nat | j < |es| && Overlaps(es[j], lo, hi) ensures MeetsAt(es, 0, j, lo, hi) {
      var k :| 0 <= k < |es| && es[k].start <= lo && hi <= es[k].End();
      assert j < k ==> Before(es[j], es[k]);
      assert k < j ==> Before(es[k], es[j]);
    }
  }
}
