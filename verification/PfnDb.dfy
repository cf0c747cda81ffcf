/** The page frame database: one entry per physical page, filled from the boot memory map. */
module PfnDb {

  datatype PfnEntry = PfnEntry(usable: bool, mapped: bool, tags: bv32, inuse: bool, zeroed: bool, kernel: bool, swappable: bool) {
    predicate Free() { usable && !inuse }
  }
}

module PfnBuild {
  import opened Common
  import opened MemMap
  import opened BootMap
  import opened PfnDb

  /** Page `pg` lies wholly inside the entry. */
  predicate Inside(e: Entry, pg: nat) { e.start <= pg * PAGE_SIZE && (pg + 1) * PAGE_SIZE <= e.start + e.size }

  function PageUp(a: nat): nat { (a + PAGE_SIZE - 1) / PAGE_SIZE }

  function PageDown(a: nat): nat { a / PAGE_SIZE }

  const HOLE := PfnEntry(false, false, 0, true, false, true, false)

  function EntryFor(e: Entry): PfnEntry {
    if e.flags == MEMMAP_USABLE then PfnEntry(true, true, e.tags, false, false, false, true)
    else PfnEntry(true, true, 0, true, false, true, false)
  }

  /** What the database must say about page `pg`. */
  ghost predicate Right(x: PfnEntry, es: seq<Entry>, pg: nat) {
    && (forall i {:trigger Inside(es[i], pg)} :: 0 <= i < |es| && Inside(es[i], pg) ==> x == EntryFor(es[i]))
    && ((forall i {:trigger Inside(es[i], pg)} :: 0 <= i < |es| ==> !Inside(es[i], pg)) ==> x == HOLE)
  }

  ghost predicate Ordered(es: seq<Entry>) {
    && (forall i :: 0 <= i < |es| ==> es[i].size > 0)
    && forall i, j :: 0 <= i < j < |es| ==> es[i].start + es[i].size <= es[j].start
  }

  /** A page between the end of one entry and the start of the next is inside no entry. */
  lemma BetweenIsHole(es: seq<Entry>, k: nat, pg: nat)
    requires Ordered(es) && k <= |es|
    requires k > 0 ==> PageDown(es[k - 1].start + es[k - 1].size) <= pg
    requires k < |es| ==> pg < PageUp(es[k].start)
    ensures forall i :: 0 <= i < |es| ==> !Inside(es[i], pg)
  {
    forall i | 0 <= i < |es| ensures !Inside(es[i], pg) {
      if i < k - 1 { assert es[i].start + es[i].size <= es[k - 1].start; }
      if i > k { assert es[k].start + es[k].size <= es[i].start; }
    }
  }

  lemma InsideOnlyOne(es: seq<Entry>, k: nat, pg: nat)
    requires Ordered(es) && k < |es| && PageUp(es[k].start) <= pg < PageDown(es[k].start + es[k].size)
    ensures Inside(es[k], pg) && forall i :: 0 <= i < |es| && Inside(es[i], pg) ==> i == k
  {
  }

  /** Page `pg` lies wholly inside one usable entry. */
  ghost predicate InUsable(es: seq<Entry>, pg: nat) { exists i :: UsableIn(es, i, pg) }

  ghost predicate UsableIn(es: seq<Entry>, i: int, pg: nat) {
    0 <= i < |es| && es[i].flags == MEMMAP_USABLE && Inside(es[i], pg)
  }

  /** The database entry of page `pg`, page 0 withheld. */
  ghost function PageEntry(es: seq<Entry>, pg: nat): PfnEntry {
    var x := if i :| 0 <= i < |es| && Inside(es[i], pg) then EntryFor(es[i]) else HOLE;
    if pg == 0 && x.Free() then x.(usable := false, inuse := true) else x
  }

  class PfnDatabase {
    const offset: nat
    const pfndb: array<PfnEntry>

    /** Reserves a slot for every page of the map. */
    constructor (es: seq<Entry>)
      requires |es| > 0 && Ordered(es)
      ensures Spans(es) && fresh(pfndb)
    {
      var last := es[|es| - 1];
      assert |es| > 1 ==> es[0].start + es[0].size <= last.start;
      offset := PageDown(es[0].start);
      pfndb := new PfnEntry[PageUp(last.start + last.size) - PageDown(es[0].start)](i => HOLE);
    }

    /** The database has a slot for every page of the map. */
    ghost predicate Spans(es: seq<Entry>) {
      && |es| > 0 && Ordered(es) && offset == PageDown(es[0].start)
      && offset + pfndb.Length == PageUp(es[|es| - 1].start + es[|es| - 1].size)
    }

    ghost predicate RightUpTo(es: seq<Entry>, n: nat)
      reads pfndb
    {
      forall i {:trigger pfndb[i]} :: 0 <= i < pfndb.Length && offset + i < n ==> Right(pfndb[i], es, offset + i)
    }

    /** Writes `x` to the pages `lo .. hi`. */
    method Fill(lo: nat, hi: nat, x: PfnEntry)
      requires offset <= lo && hi <= offset + pfndb.Length
      modifies pfndb
      ensures forall i :: 0 <= i < pfndb.Length ==>
        pfndb[i] == if lo <= offset + i < hi then x else old(pfndb[i])
    {
      var pg := lo;
      while pg < hi
        invariant lo <= pg <= if lo <= hi then hi else lo
        invariant forall i :: 0 <= i < pfndb.Length ==> pfndb[i] == if lo <= offset + i < pg then x else old(pfndb[i])
      {
        pfndb[pg - offset] := x;
        pg := pg + 1;
      }
    }

    /** Where the pages before entry `e` end. */
    ghost predicate Reached(es: seq<Entry>, e: nat, prevEnd: nat)
      requires Spans(es) && e <= |es|
      reads pfndb
    {
      && offset <= prevEnd <= offset + pfndb.Length && RightUpTo(es, prevEnd)
      && prevEnd == if e == 0 then offset else PageDown(es[e - 1].start + es[e - 1].size)
    }

    /** Fills the hole before entry `e` and the pages inside it. */
    method FillEntry(es: seq<Entry>, e: nat, prevEnd: nat) returns (alignedEnd: nat)
      requires Spans(es) && e < |es| && Reached(es, e, prevEnd)
      modifies pfndb
      ensures Reached(es, e + 1, alignedEnd)
    {
      var cur := es[e];
      assert e > 0 ==> es[e - 1].start + es[e - 1].size <= cur.start;
      assert e < |es| - 1 ==> cur.start + cur.size <= es[|es| - 1].start;
      var alignedStart := PageUp(cur.start);
      alignedEnd := PageDown(cur.start + cur.size);
      Fill(prevEnd, alignedStart, HOLE);
      Fill(alignedStart, alignedEnd, EntryFor(cur));
      forall i | 0 <= i < pfndb.Length && prevEnd <= offset + i < alignedEnd ensures Right(pfndb[i], es, offset + i) {
        if offset + i < alignedStart {
          BetweenIsHole(es, e, offset + i);
        } else {
          InsideOnlyOne(es, e, offset + i);
        }
      }
    }

    /** Every slot is written, and with what the map says about its page. */
    method ConstructPfndb(es: seq<Entry>)
      requires Spans(es)
      modifies pfndb
      ensures RightUpTo(es, offset + pfndb.Length)
    {
      var prevEnd: nat := offset;
      var e := 0;
      while e < |es|
        invariant 0 <= e <= |es| && Reached(es, e, prevEnd)
      {
        prevEnd := FillEntry(es, e, prevEnd);
        e := e + 1;
      }
      Fill(prevEnd, offset + pfndb.Length, HOLE);
      forall i | 0 <= i < pfndb.Length && prevEnd <= offset + i ensures Right(pfndb[i], es, offset + i) {
        BetweenIsHole(es, |es|, offset + i);
      }
    }

    /** Builds the database and withholds page 0, whose number stands for failure. */
    method InitPfndb(es: seq<Entry>)
      requires Spans(es)
      modifies pfndb
      ensures forall i {:trigger pfndb[i]} :: 0 <= i < pfndb.Length ==> pfndb[i] == PageEntry(es, offset + i)
    {
      ConstructPfndb(es);
      if offset == 0 && pfndb.Length > 0 && pfndb[0].usable && !pfndb[0].inuse {
        pfndb[0] := pfndb[0].(usable := false, inuse := true);
      }
    }
  }

  /** A page is free in the database exactly if it is not page 0 and lies wholly inside a usable
      entry, and then it has the tags of that entry. */
  lemma FreeIffUsable(es: seq<Entry>, pg: nat)
    requires Ordered(es)
    ensures PageEntry(es, pg).Free() <==> pg != 0 && InUsable(es, pg)
    ensures forall i :: 0 <= i < |es| && Inside(es[i], pg) && PageEntry(es, pg).Free() ==> PageEntry(es, pg).tags == es[i].tags
  {
    if i :| 0 <= i < |es| && Inside(es[i], pg) {
      forall j | 0 <= j < |es| && Inside(es[j], pg) ensures j == i { InsideTwice(es, i, j, pg); }
      assert PageEntry(es, pg).Free() ==> UsableIn(es, i, pg);
    }
  }

  /** The flags of a page: it is swappable if it is in a usable entry and the kernel's otherwise, it is mapped if it is
      in any entry, and it has no tags but those of a usable entry.  But for page 0 only the kernel's are in use. */
  lemma PageFlags(es: seq<Entry>, pg: nat)
    requires Ordered(es)
    ensures var x := PageEntry(es, pg);
      && !x.zeroed && (x.swappable <==> InUsable(es, pg)) && x.kernel == !x.swappable && (x.kernel ==> x.tags == 0)
      && (x.mapped <==> exists i :: 0 <= i < |es| && Inside(es[i], pg))
      && (pg != 0 ==> x.inuse == x.kernel && x.usable == x.mapped)
  {
    if i :| 0 <= i < |es| && Inside(es[i], pg) {
      forall j | 0 <= j < |es| && Inside(es[j], pg) ensures j == i { InsideTwice(es, i, j, pg); }
      assert UsableIn(es, i, pg) <==> InUsable(es, pg);
    }
  }

  lemma InsideTwice(es: seq<Entry>, i: nat, j: nat, pg: nat)
    requires Ordered(es) && i < |es| && j < |es| && Inside(es[i], pg) && Inside(es[j], pg)
    ensures i == j
  {
  }
}
