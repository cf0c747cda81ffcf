/** The boot memory map in its array, claimed and searched in place. */
module BootMap {
  import opened Common
  import opened Pow2
  import opened MemMap
  import opened MemTags

  datatype Entry = Entry(start: nat, size: nat, flags: int, tags: bv32) {
    function Strip(): Span { Span(start, size, flags) }
  }

  function Stripped(es: seq<Entry>): (s: seq<Span>)
    ensures |s| == |es| && forall i :: 0 <= i < |s| ==> s[i] == es[i].Strip()
  {
    seq(|es|, i requires 0 <= i < |es| => es[i].Strip())
  }

  lemma StrippedConcat(es: seq<Entry>, idx: nat, x: Entry)
    requires idx <= |es|
    ensures Stripped(es[..idx] + [x] + es[idx..]) == Stripped(es)[..idx] + [x.Strip()] + Stripped(es)[idx..]
  {
  }

  lemma SlotOpened(was: seq<Entry>, now: seq<Entry>, idx: nat)
    requires idx <= |was| && |now| == |was| + 1 && now[..idx] == was[..idx]
    requires forall j {:trigger now[j]} :: idx < j < |now| ==> now[j] == was[j - 1]
    ensures now == was[..idx] + [now[idx]] + was[idx..]
  {
    assert now == now[..idx] + [now[idx]] + now[idx + 1..];
    assert now[idx + 1..] == was[idx..];
  }

  lemma StrippedDrop(es: seq<Entry>, idx: nat)
    requires idx < |es|
    ensures Stripped(es[..idx] + es[idx + 1..]) == Stripped(es)[..idx] + Stripped(es)[idx + 1..]
  {
  }

  class MemoryMap {
    const entries: array<Entry>
    var num: nat

    ghost predicate Valid()
      reads this
    {
      num <= entries.Length
    }

    ghost function Live(): (s: seq<Span>)
      requires Valid()
      reads this, entries
    {
      Stripped(entries[..num])
    }

    constructor (es: seq<Entry>, slots: nat)
      requires |es| <= slots
      ensures Valid() && fresh(entries) && entries.Length == slots && num == |es| && entries[..num] == es
    {
      entries := new Entry[slots](i => if 0 <= i < |es| then es[i] else Entry(0, 0, 0, 0));
      num := |es|;
      new;
      assert entries[..num] == es;
    }

    /** Opens a slot at `idx`; its contents are left for the caller to fill. */
    method InsertEntry(idx: nat) returns (ok: bool)
      requires Valid() && idx <= num
      modifies this`num, entries
      ensures Valid() && ok == (old(num) < entries.Length)
      ensures !ok ==> num == old(num) && Live() == old(Live())
      ensures ok ==> num == old(num) + 1 && Live() == old(Live())[..idx] + [Live()[idx]] + old(Live())[idx..]
    {
      if num >= entries.Length {
        return false;
      }
      ShiftRight(idx);
      StrippedConcat(old(entries[..num]), idx, entries[idx]);
      return true;
    }

    method ShiftRight(idx: nat)
      requires idx <= num < entries.Length
      modifies this`num, entries
      ensures num == old(num) + 1 && entries[..num] == old(entries[..num])[..idx] + [entries[idx]] + old(entries[..num])[idx..]
    {
      MoveUp(idx);
      SlotOpened(old(entries[..num]), entries[..num + 1], idx);
      num := num + 1;
    }

    /** Copies the entries from `idx` on one slot up. */
    method MoveUp(idx: nat)
      requires idx <= num < entries.Length
      modifies entries
      ensures forall j :: 0 <= j < idx ==> entries[j] == old(entries[j])
      ensures forall j {:trigger entries[j]} :: idx < j <= num ==> entries[j] == old(entries[j - 1])
    {
      var i := num;
      while i > idx
        invariant idx <= i <= num
        invariant forall j :: 0 <= j < i ==> entries[j] == old(entries[j])
        invariant forall j {:trigger entries[j]} :: i < j <= num ==> entries[j] == old(entries[j - 1])
      {
        entries[i] := entries[i - 1];
        i := i - 1;
      }
    }

    method RemoveEntry(idx: nat)
      requires Valid() && idx < num
      modifies this`num, entries
      ensures Valid() && num == old(num) - 1 && entries[num] == Entry(0, 0, 0, 0)
      ensures Live() == old(Live())[..idx] + old(Live())[idx + 1..]
    {
      ShiftLeft(idx);
      StrippedDrop(old(entries[..num]), idx);
    }

    method ShiftLeft(idx: nat)
      requires idx < num <= entries.Length
      modifies this`num, entries
      ensures num == old(num) - 1 && entries[..num] == old(entries[..num])[..idx] + old(entries[..num])[idx + 1..]
      ensures entries[num] == Entry(0, 0, 0, 0) && forall j :: num < j < entries.Length ==> entries[j] == old(entries[j])
    {
      var i := idx;
      while i < num - 1
        invariant num == old(num) && idx <= i <= num - 1
        invariant forall j :: 0 <= j < entries.Length && (j < idx || i <= j) ==> entries[j] == old(entries[j])
        invariant forall j {:trigger entries[j]} :: idx <= j < i ==> entries[j] == old(entries[j + 1])
      {
        entries[i] := entries[i + 1];
        i := i + 1;
      }
      entries[i] := Entry(0, 0, 0, 0);
      num := num - 1;
    }

    /** Cuts entry `idx` in two at `offset`, both halves keeping its type. */
    method SplitEntry(idx: nat, offset: nat) returns (ok: bool)
      requires Valid() && idx < num && offset < entries[idx].size
      modifies this`num, entries
      ensures Valid() && ok == (old(num) < entries.Length)
      ensures !ok ==> Live() == old(Live())
      ensures ok ==> num == old(num) + 1 && var e := old(Live())[idx];
        Live() == Spliced(old(Live()), idx, [e.(size := offset), e.(start := e.start + offset, size := e.size - offset)])
    {
      ok := InsertEntry(idx + 1);
      if !ok {
        return;
      }
      assert Live()[idx] == old(Live())[idx];
      ghost var es := Live();
      var entry := entries[idx];
      entries[idx + 1] := entry.(start := entry.start + offset, size := entry.size - offset);
      entries[idx] := entry.(size := offset);
      assert Live() == es[idx + 1 := entries[idx + 1].Strip()][idx := entries[idx].Strip()];
    }

    method MergeConsecutive()
      requires Valid()
      modifies this`num, entries
      ensures Valid() && Live() == MergeFrom(old(Live()), 0) && Merged(Live())
    {
      MergeMerges(Live(), 0);
      var i := 0;
      while i + 1 < num
        invariant Valid() && MergeFrom(Live(), i) == MergeFrom(old(Live()), 0)
        decreases num, num - i
      {
        var entry, next := entries[i], entries[i + 1];
        if entry.start + entry.size == next.start && entry.flags == next.flags {
          JoinNext(i);
        } else {
          i := i + 1;
        }
      }
    }

    method JoinNext(i: nat)
      requires Valid() && i + 1 < num
      modifies this`num, entries
      ensures Valid() && num == old(num) - 1 && Live() == Join(old(Live()), i)
    {
      entries[i] := entries[i].(size := entries[i].size + entries[i + 1].size);
      assert Live() == old(Live())[i := entries[i].Strip()];
      RemoveEntry(i + 1);
    }

    method SetEntry(idx: nat, start: nat, size: nat, flags: int)
      requires Valid() && idx < num
      modifies entries
      ensures Live() == old(Live())[idx := Span(start, size, flags)]
    {
      entries[idx] := entries[idx].(start := start, size := size, flags := flags);
    }

    /** Puts a new entry in front of entry `idx`. */
    method InsertBefore(idx: nat, start: nat, size: nat, flags: int) returns (ok: bool)
      requires Valid() && idx < num
      modifies this`num, entries
      ensures Valid() && ok == (old(num) < entries.Length)
      ensures ok ==> num == old(num) + 1 && Live() == Spliced(old(Live()), idx, [Span(start, size, flags), old(Live())[idx]])
    {
      ok := InsertEntry(idx);
      if ok {
        SetEntry(idx, start, size, flags);
      }
    }

    /** Cuts entry `idx` in three and retypes the middle part. */
    method SplitMiddle(idx: nat, offset1: nat, offset2: nat, flags: int) returns (ok: bool)
      requires Valid() && idx < num && 0 < offset1 < offset2 < entries[idx].size
      modifies this`num, entries
      ensures Valid() && ok == (old(num) + 1 < entries.Length)
      ensures ok ==> var e := old(Live())[idx];
        Live() == Spliced(old(Live()), idx, [e.(size := offset1), Span(e.start + offset1, offset2 - offset1, flags),
                                             e.(start := e.start + offset2, size := e.size - offset2)])
    {
      ok := SplitEntry(idx, offset2);
      if ok {
        ok := SplitEntry(idx, offset1);
      }
      if ok {
        var entry2 := entries[idx + 1];
        SetEntry(idx + 1, entry2.start, entry2.size, flags);
      }
    }

    /** The live entries, the index and the running range are as turn `t` of the claim loop left them. */
    ghost predicate Follows(t: Turn, ok: bool, i: nat, cur: nat, sz: nat)
      requires Valid()
      reads this, entries
    {
      t == if ok then Next(Live(), i, cur, sz) else Full
    }

    /** The turn at an entry that starts where the claim does. */
    method ClaimFront(i: nat, sz: nat, ghost end: nat, flags: int) returns (ok: bool, i': nat, cur': nat, sz': nat)
      requires Valid() && i < num && entries[i].start < end && 0 < sz && entries[i].start + sz <= end
      modifies this`num, entries
      ensures Valid() && (ok ==> num >= old(num))
      ensures Follows(ClaimTurn(old(Live()), i, old(entries[i].start), sz, end, flags, entries.Length), ok, i', cur', sz')
    {
      var e := entries[i];
      assert Live()[i] == e.Strip();
      i', cur', sz' := i + 1, e.start, 0;
      if sz >= e.size {
        SetEntry(i, e.start, e.size, flags);
        return true, i + 1, e.start + e.size, sz - e.size;
      }
      ok := SplitEntry(i, sz);
      if ok {
        SetEntry(i, entries[i].start, entries[i].size, flags);
      }
    }

    /** Retypes entry `i` from `cur` on. */
    method ClaimTail(i: nat, cur: nat, flags: int) returns (ok: bool)
      requires Valid() && i < num && entries[i].start < cur < entries[i].start + entries[i].size
      modifies this`num, entries
      ensures Valid() && ok == (old(num) < entries.Length)
      ensures ok ==> num == old(num) + 1 && var e := old(Live())[i];
        Live() == Spliced(old(Live()), i, [e.(size := cur - e.start), Span(cur, e.End() - cur, flags)])
    {
      var e := entries[i];
      assert Live()[i] == e.Strip();
      ok := SplitEntry(i, cur - e.start);
      if ok {
        SetEntry(i + 1, cur, e.start + e.size - cur, flags);
      }
    }

    /** The turn at an entry inside which the claim starts. */
    method ClaimBack(i: nat, cur: nat, sz: nat, end: nat, flags: int) returns (ok: bool, i': nat, cur': nat, sz': nat)
      requires Valid() && i < num && entries[i].start < cur < entries[i].start + entries[i].size
      requires 0 < sz && cur + sz <= end
      modifies this`num, entries
      ensures Valid() && (ok ==> num >= old(num))
      ensures Follows(ClaimTurn(old(Live()), i, cur, sz, end, flags, entries.Length), ok, i', cur', sz')
    {
      var e := entries[i];
      assert Live()[i] == e.Strip();
      cur' := cur;
      if end >= e.start + e.size {
        var rest := e.start + e.size - cur;
        i', sz' := i + 2, if sz >= rest then sz - rest else 0;
        ok := ClaimTail(i, cur, flags);
      } else {
        i', sz' := i + 3, 0;
        ok := SplitMiddle(i, cur - e.start, end - e.start, flags);
      }
    }

    /** One turn of the claim loop. */
    method ClaimStep(i: nat, cur: nat, sz: nat, end: nat, flags: int) returns (ok: bool, i': nat, cur': nat, sz': nat)
      requires Valid() && i < num && 0 < sz && cur + sz <= end
      modifies this`num, entries
      ensures Valid() && (ok ==> num >= old(num))
      ensures Follows(ClaimTurn(old(Live()), i, cur, sz, end, flags, entries.Length), ok, i', cur', sz')
    {
      var e := entries[i];
      assert Live()[i] == e.Strip();
      i', cur', sz' := i + 1, cur, sz;
      if end <= e.start {
        ok := InsertBefore(i, cur, sz, flags);
        sz' := 0;
      } else if cur < e.start {
        ok := InsertBefore(i, cur, 0, flags);
      } else if cur == e.start {
        ok, i', cur', sz' := ClaimFront(i, sz, end, flags);
      } else if cur < e.start + e.size {
        ok, i', cur', sz' := ClaimBack(i, cur, sz, end, flags);
      } else {
        ok := true;
      }
    }

    method Append(start: nat, size: nat, flags: int) returns (ok: bool)
      requires Valid()
      modifies this`num, entries
      ensures Valid() && ok == (old(num) < entries.Length)
      ensures ok ==> Live() == old(Live()) + [Span(start, size, flags)]
    {
      ok := InsertEntry(num);
      if ok {
        SetEntry(num - 1, start, size, flags);
      }
    }

    /** The claim loop over the entries; `cur` and `sz` are what it leaves of the range. */
    method ClaimEntries(start: nat, size: nat, flags: int) returns (ok: bool, cur: nat, sz: nat)
      requires Valid()
      modifies this`num, entries
      ensures Valid()
      ensures var end, result := start + size, ClaimLoop(old(Live()), 0, start, size, start + size, flags, entries.Length);
        if ok then cur + sz <= end && result == ClaimLoop(Live(), num, cur, sz, end, flags, entries.Length) else result == Panic
    {
      var end := start + size;
      var i: nat := 0;
      ok, cur, sz := true, start, size;
      while i < num && sz > 0
        invariant Valid() && cur + sz <= end
        invariant ClaimLoop(Live(), i, cur, sz, end, flags, entries.Length) ==
                  ClaimLoop(old(Live()), 0, start, size, end, flags, entries.Length)
        decreases entries.Length - num, num - i
      {
        ok, i, cur, sz := ClaimStep(i, cur, sz, end, flags);
        if !ok {
          return;
        }
      }
      ok := true;
    }

    /** Claims a region; `panicked` when the map runs out of slots. */
    method ClaimMemmapRegion(start: nat, size: nat, flags: int) returns (panicked: bool)
      requires Valid()
      modifies this`num, entries
      ensures Valid()
      ensures ClaimRegion(old(Live()), start, size, flags, entries.Length) == if panicked then Panic else Done(Live())
      ensures !panicked ==> Merged(Live())
    {
      var ok, cur, sz := ClaimEntries(start, size, flags);
      if ok && sz > 0 {
        ok := Append(cur, sz, flags);
      }
      if !ok {
        return true;
      }
      MergeConsecutive();
      return false;
    }

    /** The first suitable entry from `i` on, or `num` when there is none. */
    function FirstFrom(i: nat, size: nat, align: nat, mask: bv32, how: Match): (f: nat)
      requires Valid() && i <= num
      reads this, entries
      ensures i <= f <= num && (f < num ==> Suits(entries[f], size, align, mask, how))
      ensures forall j: nat :: i <= j < f ==> !Suits(entries[j], size, align, mask, how)
      decreases num - i
    {
      if i == num || Suits(entries[i], size, align, mask, how) then i else FirstFrom(i + 1, size, align, mask, how)
    }

    /** Claims the lowest aligned block of the first entry that holds one and returns its address.  The
        answer 0 says that no entry suits if and only if the first suitable entry does not start at 0. */
    method FindFreeMemmapRegion(size: nat, align: nat, mask: bv32, how: Match) returns (r: nat)
      requires Valid() && Sorted(Live()) && num + 2 <= entries.Length
      requires PowerOfTwoOrZero(align) && forall i :: 0 <= i < num ==> entries[i].start + align <= WORD64
      modifies this`num, entries
      ensures Valid()
      ensures var f := old(FirstFrom(0, size, align, mask, how));
        if f == old(num) then r == 0 && num == old(num) && entries[..] == old(entries[..])
        else r == AlignUp(old(entries[f].start), align) && Claimed(old(Live()), Live(), r, size)
      ensures align > 0 ==> r % align == 0
      ensures var f := old(FirstFrom(0, size, align, mask, how)); Lowest(old(entries[..num]), f, r, size, align, mask, how)
      ensures var f := old(FirstFrom(0, size, align, mask, how));
        (r == 0 <==> f == old(num)) <==> !(f < old(num) && old(entries[f].start) == 0)
    {
      var i := 0;
      while i < num
        invariant 0 <= i <= num == old(num) && entries[..] == old(entries[..])
        invariant old(FirstFrom(0, size, align, mask, how)) == old(FirstFrom(i, size, align, mask, how))
        invariant NoneHolds(old(entries[..num]), i, size, align, mask, how)
      {
        LowestNext(entries[..num], i, size, align, mask, how);
        if Suits(entries[i], size, align, mask, how) {
          AlignUpFits(entries[i].start, align);
          r := ClaimIn(i, size, align);
          return;
        }
        i := i + 1;
      }
      return 0;
    }

    /** Claims the aligned start of entry `i`. */
    method ClaimIn(i: nat, size: nat, align: nat) returns (r: nat)
      requires Valid() && Sorted(Live()) && num + 2 <= entries.Length && i < num
      requires entries[i].flags == MEMMAP_USABLE && PowerOfTwoOrZero(align) && entries[i].start + align <= WORD64
      requires AlignUp(entries[i].start, align) + size <= entries[i].start + entries[i].size
      modifies this`num, entries
      ensures Valid()
      ensures r == AlignUp(old(entries[i].start), align) && Claimed(old(Live()), Live(), r, size)
    {
      assert Live()[i] == entries[i].Strip();
      AlignUpFits(entries[i].start, align);
      r := AlignUp(entries[i].start, align);
      ClaimPart(Live(), i, r, size, entries.Length);
      var panicked := ClaimMemmapRegion(r, size, MEMMAP_USED);
    }
  }

  /** The test of the search: the entry is usable, has the wanted tags and room above its aligned start. */
  predicate Suits(e: Entry, size: nat, align: nat, mask: bv32, how: Match) {
    && e.flags == MEMMAP_USABLE && e.size >= size
    && AlignUp(e.start, align) < e.start + e.size && e.start + e.size - AlignUp(e.start, align) >= size
    && TagsMatch(e.tags, mask, how)
  }

  /** The `size` bytes from `a` on are an aligned block of a usable entry with the wanted tags. */
  ghost predicate Holds(e: Entry, a: nat, size: nat, align: nat, mask: bv32, how: Match) {
    && e.flags == MEMMAP_USABLE && TagsMatch(e.tags, mask, how) && (align > 0 ==> a % align == 0)
    && e.start <= a < e.start + e.size && a + size <= e.start + e.size
  }

  ghost predicate NoneHolds(es: seq<Entry>, n: nat, size: nat, align: nat, mask: bv32, how: Match) {
    forall j: nat, a: nat {:trigger Holds(es[j], a, size, align, mask, how)} :: j < n && j < |es| ==> !Holds(es[j], a, size, align, mask, how)
  }

  /** Entry `f` is the first that holds a block, and its lowest one is at `r`; or `f` is `|es|` and none does. */
  ghost predicate Lowest(es: seq<Entry>, f: nat, r: nat, size: nat, align: nat, mask: bv32, how: Match) {
    && f <= |es| && NoneHolds(es, f, size, align, mask, how)
    && (f < |es| ==> Holds(es[f], r, size, align, mask, how) && forall a: nat :: Holds(es[f], a, size, align, mask, how) ==> r <= a)
  }

  lemma LowestInEntry(e: Entry, a: nat, size: nat, align: nat, mask: bv32, how: Match)
    requires e.start + align <= WORD64 && Holds(e, a, size, align, mask, how)
    ensures AlignUp(e.start, align) <= a
  {
    AlignUpFits(e.start, align);
    var u := AlignUp(e.start, align);
    if align > 0 && a < u { MultiplesApart(a, u, align); }
  }

  /** An entry passes the test if and only if it holds a block. */
  lemma LowestNext(es: seq<Entry>, i: nat, size: nat, align: nat, mask: bv32, how: Match)
    requires i < |es| && es[i].start + align <= WORD64 && NoneHolds(es, i, size, align, mask, how)
    ensures if Suits(es[i], size, align, mask, how) then Lowest(es, i, AlignUp(es[i].start, align), size, align, mask, how)
      else NoneHolds(es, i + 1, size, align, mask, how)
  {
    AlignUpFits(es[i].start, align);
    forall a: nat | Holds(es[i], a, size, align, mask, how) ensures AlignUp(es[i].start, align) <= a {
      LowestInEntry(es[i], a, size, align, mask, how);
    }
  }

  lemma MultiplesApart(a: nat, u: nat, m: nat)
    requires m > 0 && a % m == 0 && u % m == 0 && a < u
    ensures a + m <= u
  {
    if u < a + m {
      var q := a / m;
      assert u == m * q + (u - a);
      DivModUnique(u, m, q, u - a);
    }
  }

  /** The `size` addresses from `r` on were usable and are used now; no other address has changed, and
      equal neighbours are merged. */
  ghost predicate Claimed(s: seq<Span>, t: seq<Span>, r: nat, size: nat) {
    && (forall a: nat :: r <= a < r + size ==> FlagAt(s, a) == MEMMAP_USABLE)
    && Retyped(s, t, r, r + size, MEMMAP_USED) && Merged(t)
  }

  /** Any part of a usable entry can be claimed. */
  lemma ClaimPart(es: seq<Span>, i: nat, r: nat, size: nat, slots: nat)
    requires Sorted(es) && |es| + 2 <= slots && i < |es| && es[i].flags == MEMMAP_USABLE
    requires es[i].start <= r && r + size <= es[i].End()
    ensures var c := ClaimRegion(es, r, size, MEMMAP_USED, slots); c.Done? && Claimed(es, c.es, r, size)
  {
    InsideEntry(es, i, r, r + size);
    ClaimWorksIffClaimable(es, r, size, MEMMAP_USED, slots);
  }

  ghost predicate PowerOfTwoOrZero(align: nat) { align == 0 || exists k: nat :: align == Pow(k) }

  /** The mask rounding on 64-bit words, for `align` zero or a power of two. */
  function AlignUp(x: nat, align: nat): int {
    if align == 0 then x else var y := (x + align - 1) % WORD64; y - y % align
  }

  lemma AlignUpFits(x: nat, align: nat)
    requires x + align <= WORD64
    ensures AlignUp(x, align) >= x && (align > 0 ==> AlignUp(x, align) % align == 0 && AlignUp(x, align) < x + align)
    ensures AlignUp(x, align) == 0 <==> x == 0
  {
    if align > 0 {
      var y := x + align - 1;
      DivModUnique(y, WORD64, 0, y);
      var q := y / align;
      assert y == align * q + y % align;
      MulMod(align, q);
      if x == 0 { DivModUnique(y, align, 0, y); }
    }
  }

  lemma InsideEntry(es: seq<Span>, i: nat, lo: nat, hi: nat)
    requires Sorted(es) && i < |es| && es[i].start <= lo <= hi <= es[i].End()
    ensures Claimable(es, lo, hi)
    ensures forall a: nat :: lo <= a < hi ==> FlagAt(es, a) == es[i].flags
  {
    InsideOrApartIsClaimable(es, lo, hi);
    SortedParts(es, i);
    forall a: nat | lo <= a < hi ensures FlagAt(es, a) == es[i].flags {
      NotCovered(es[..i], a);
      FlagReplace(es[..i], [es[i]], [es[i]], es[i + 1..], a);
    }
  }

  /** A usable entry at address 0: the search claims it and answers as if there were none. */
  method UsableAtZero(mask: bv32) returns (m: MemoryMap, r: nat)
    ensures m.Valid() && r == 0 && FlagAt(m.Live(), 0) == MEMMAP_USED
  {
    m := new MemoryMap([Entry(0, 0x1000, MEMMAP_USABLE, mask)], 4);
    assert m.entries[..m.num][0] == m.entries[0];
    assert 0x1000 == Pow(12);
    AlignUpFits(0, 0x1000);
    assert Suits(m.entries[0], 0x1000, 0x1000, mask, MatchExact);
    r := m.FindFreeMemmapRegion(0x1000, 0x1000, mask, MatchExact);
  }

  datatype Grant = Grant(start: nat, size: nat)

  /** Each map comes from the one before by handing out a usable region. */
  ghost predicate BootRun(maps: seq<seq<Span>>, grants: seq<Grant>) {
    && |maps| == |grants| + 1
    && forall k {:trigger grants[k]} :: 0 <= k < |grants| ==>
         Claimed(maps[k], maps[k + 1], grants[k].start, grants[k].size)
  }

  /** Over any run of boot allocations the regions handed out are pairwise disjoint. */
  lemma {:induction false} BootGrantsDisjoint(maps: seq<seq<Span>>, grants: seq<Grant>, j: nat, k: nat, a: nat)
    requires BootRun(maps, grants) && j < k < |grants|
    requires grants[j].start <= a < grants[j].start + grants[j].size
    ensures !(grants[k].start <= a < grants[k].start + grants[k].size)
  {
    StaysUsed(maps, grants, j + 1, k, a);
  }

  lemma {:induction false} StaysUsed(maps: seq<seq<Span>>, grants: seq<Grant>, j: nat, k: nat, a: nat)
    requires BootRun(maps, grants) && j <= k <= |grants| && FlagAt(maps[j], a) == MEMMAP_USED
    ensures FlagAt(maps[k], a) == MEMMAP_USED
    decreases k - j
  {
    if j < k {
      var g := grants[j];
      StaysUsed(maps, grants, j + 1, k, a);
    }
  }
}
