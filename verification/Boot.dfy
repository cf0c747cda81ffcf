/** From the boot memory map to a page allocator in service. */
module Boot {
  import opened Common
  import opened MemMap
  import opened MemTags
  import opened BootMap
  import opened PfnDb
  import opened PfnBuild
  import opened Pow2
  import opened BuddyShape
  import opened PageFrames

  // ---------------------------------------------------------------- the map and the database

  lemma SortedIsOrdered(es: seq<Entry>)
    requires MemMap.Sorted(Stripped(es))
    ensures Ordered(es)
  {
    var s := Stripped(es);
    forall i, j | 0 <= i < j < |es| ensures es[i].start + es[i].size <= es[j].start { assert Before(s[i], s[j]); }
    forall i | 0 <= i < |es| ensures es[i].size > 0 { assert s[i].size > 0; }
  }

  /** The database of a map: an entry for each of `n` pages from `offset` on. */
  ghost function Database(es: seq<Entry>, offset: nat, n: nat): (db: seq<PfnEntry>)
    ensures |db| == n && forall i :: 0 <= i < n ==> db[i] == PageEntry(es, offset + i)
  {
    seq(n, i requires 0 <= i < n => PageEntry(es, offset + i))
  }

  /** The number of regions that the map gives rise to. */
  ghost function RegionsOf(es: seq<Entry>): nat
    requires |es| > 0
  {
    var first, end := PageDown(es[0].start), PageUp(es[|es| - 1].start + es[|es| - 1].size);
    var n := if first <= end then end - first else 0;
    Starts(Database(es, first, n), n)
  }

  /** Pages `pg - 1` and `pg`, neither of them page 0, lie in usable entries with different tags. */
  ghost predicate Border(es: seq<Entry>, pg: nat) { pg > 1 && Differ(es, pg - 1, pg) }

  ghost predicate Differ(es: seq<Entry>, p: nat, q: nat) {
    exists i, j :: UsableIn(es, i, p) && UsableIn(es, j, q) && es[i].tags != es[j].tags
  }

  /** The number of consecutive borders that end at page `pg`. */
  ghost function Borders(es: seq<Entry>, pg: nat): nat {
    if Border(es, pg) then Borders(es, pg - 1) + 1 else 0
  }

  /** Two usable pages have their tags from the entries they are in. */
  lemma BorderIsTagChange(es: seq<Entry>, pg: nat)
    requires Ordered(es) && pg > 0
    ensures var x, y := PageEntry(es, pg - 1), PageEntry(es, pg);
      Border(es, pg) <==> x.Free() && y.Free() && x.tags != y.tags
  {
    FreeIffUsable(es, pg - 1);
    FreeIffUsable(es, pg);
    if InUsable(es, pg - 1) && InUsable(es, pg) {
      var p := pg - 1;
      var i :| UsableIn(es, i, p);
      var j :| UsableIn(es, j, pg);
    }
  }

  lemma {:induction false} BordersAreStreak(es: seq<Entry>, offset: nat, n: nat, i: nat)
    requires |es| > 0 && Ordered(es) && i < n && offset == PageDown(es[0].start)
    ensures Streak(Database(es, offset, n), i) == Borders(es, offset + i)
  {
    var db := Database(es, offset, n);
    if i > 0 {
      BorderIsTagChange(es, offset + i);
      assert TagChange(db, i) <==> Border(es, offset + i);
      if Border(es, offset + i) { BordersAreStreak(es, offset, n, i - 1); }
    } else if offset > 0 {
      OutsideMap(es, offset - 1);
      var p := offset - 1;
      assert forall k :: !UsableIn(es, k, p);
    }
  }

  lemma OutsideMap(es: seq<Entry>, pg: nat)
    requires |es| > 0 && Ordered(es)
    requires pg < PageDown(es[0].start) || PageUp(es[|es| - 1].start + es[|es| - 1].size) <= pg
    ensures forall i :: 0 <= i < |es| ==> !Inside(es[i], pg)
  {
    var last := es[|es| - 1];
    forall i | 0 <= i < |es| ensures !Inside(es[i], pg) {
      assert i > 0 ==> es[0].start + es[0].size <= es[i].start;
      assert i < |es| - 1 ==> es[i].start + es[i].size <= last.start;
    }
  }

  method InitDatabase(es: seq<Entry>) returns (db: seq<PfnEntry>, offset: nat)
    requires |es| > 0 && MemMap.Sorted(Stripped(es))
    ensures Ordered(es) && offset == PageDown(es[0].start) && offset + |db| == PageUp(es[|es| - 1].start + es[|es| - 1].size)
    ensures db == Database(es, offset, |db|) && Starts(db, |db|) == RegionsOf(es)
    ensures offset == 0 && |db| > 0 ==> !db[0].Free()
  {
    SortedIsOrdered(es);
    var d := new PfnDatabase(es);
    d.InitPfndb(es);
    db, offset := d.pfndb[..], d.offset;
    assert db == Database(es, offset, |db|);
    FreeIffUsable(es, 0);
  }

  /** The allocator of a map: a page is managed if and only if it is not page 0, lies wholly inside a
      usable entry and is not lost where the tags change. */
  ghost predicate Manages(pa: PageAllocator, es: seq<Entry>)
    requires pa.Valid()
    reads pa, pa.nodes, pa.regions
  {
    forall p: nat {:trigger pa.Managed(p)} :: pa.Managed(p) <==> p != 0 && InUsable(es, p) && Borders(es, p) % 2 == 0
  }

  /** Each region has the tags of the usable entries that its pages lie in. */
  ghost predicate Tagged(pa: PageAllocator, es: seq<Entry>)
    requires pa.Valid()
    reads pa, pa.nodes, pa.regions
  {
    forall r: nat, p: nat, i: nat {:trigger pa.Owns(r, p), UsableIn(es, i, p)} ::
      r < pa.regionCount && pa.Owns(r, p) && UsableIn(es, i, p) ==> pa.regions[r].tags == es[i].tags
  }

  /** Builds the page database from the map and the allocator from the database. */
  method InitMemory(m: MemoryMap) returns (pa: PageAllocator)
    requires m.Valid() && MemMap.Sorted(m.Live()) && m.num > 0 && RegionsOf(m.entries[..m.num]) <= MAX_REGIONS
    ensures fresh(pa) && fresh(pa.nodes) && fresh(pa.regions) && pa.Valid() && Manages(pa, m.entries[..m.num])
    ensures Tagged(pa, m.entries[..m.num]) && forall r: nat :: r < pa.regionCount ==> Used(pa.shapes[r]) == map[]
  {
    var es := m.entries[..m.num];
    var db, offset := InitDatabase(es);
    pa := InitAllocator(db, offset);
    ManagedFromMap(pa, es, db);
  }

  /** The allocator of a database: the pages that are free and not lost are managed. */
  ghost predicate Keeps(pa: PageAllocator, db: seq<PfnEntry>)
    requires pa.Valid()
    reads pa, pa.nodes, pa.regions
  {
    && (forall p: nat {:trigger pa.Managed(p)} ::
          pa.Managed(p) <==> pa.pfnStart <= p < pa.pfnStart + |db| && db[p - pa.pfnStart].Free() && Streak(db, p - pa.pfnStart) % 2 == 0)
    && (forall r: nat, p: nat {:trigger pa.Owns(r, p)} ::
          r < pa.regionCount && pa.pfnStart <= p < pa.pfnStart + |db| && pa.Owns(r, p) ==> db[p - pa.pfnStart].tags == pa.regions[r].tags)
  }

  method InitAllocator(db: seq<PfnEntry>, offset: nat) returns (pa: PageAllocator)
    requires Starts(db, |db|) <= MAX_REGIONS && (offset == 0 && |db| > 0 ==> !db[0].Free())
    ensures fresh(pa) && fresh(pa.nodes) && fresh(pa.regions) && pa.Valid() && pa.pfnStart == offset && Keeps(pa, db)
    ensures forall r: nat :: r < pa.regionCount ==> Used(pa.shapes[r]) == map[]
  {
    pa := new PageAllocator(offset, |db|);
    pa.InitPalloc(db);
  }

  /** No usable page but page 0 is lost if and only if the tags change nowhere. */
  lemma NoBorderNoLoss(pa: PageAllocator, es: seq<Entry>)
    requires pa.Valid() && Ordered(es) && Manages(pa, es)
    ensures (forall p: nat :: p != 0 && InUsable(es, p) ==> pa.Managed(p)) <==> (forall p: nat :: !Border(es, p))
  {
    BordersLosePages(es);
  }

  lemma ManagedFromMap(pa: PageAllocator, es: seq<Entry>, db: seq<PfnEntry>)
    requires |es| > 0 && Ordered(es) && pa.Valid() && Keeps(pa, db)
    requires pa.pfnStart == PageDown(es[0].start) && db == Database(es, pa.pfnStart, |db|)
    requires pa.pfnStart + |db| == PageUp(es[|es| - 1].start + es[|es| - 1].size)
    ensures Manages(pa, es) && Tagged(pa, es)
  {
    forall r: nat, p: nat, i: nat | r < pa.regionCount && pa.Owns(r, p) && UsableIn(es, i, p) ensures pa.regions[r].tags == es[i].tags {
      assert pa.Managed(p);
      FreeIffUsable(es, p);
    }
    forall p: nat ensures pa.Managed(p) <==> p != 0 && InUsable(es, p) && Borders(es, p) % 2 == 0 {
      if pa.pfnStart <= p < pa.pfnStart + |db| {
        BordersAreStreak(es, pa.pfnStart, |db|, p - pa.pfnStart);
        FreeIffUsable(es, p);
      } else {
        OutsideMap(es, p);
      }
    }
  }

  /** At a border one of the two pages is lost, and no page is lost anywhere else. */
  lemma BordersLosePages(es: seq<Entry>)
    requires Ordered(es)
    ensures (forall p: nat :: p != 0 && InUsable(es, p) ==> Borders(es, p) % 2 == 0) <==> (forall p: nat :: !Border(es, p))
  {
    if p: nat :| Border(es, p) {
      BorderIsTagChange(es, p);
      FreeIffUsable(es, p - 1);
      FreeIffUsable(es, p);
      var q := if Borders(es, p) % 2 == 1 then p else p - 1;
      assert q != 0 && InUsable(es, q) && Borders(es, q) % 2 == 1;
    }
  }

  /** Two adjacent free pages with different tags: the second is free, and no region manages it. */
  method TagChangeLosesPage(first: nat, a: PfnEntry, b: PfnEntry) returns (pa: PageAllocator)
    requires first > 0 && a.Free() && b.Free() && a.tags != b.tags
    ensures pa.Valid() && pa.Managed(first) && !pa.Managed(first + 1)
  {
    var db := [a, b];
    assert Starts(db, 1) <= 1 && Starts(db, 2) <= 2;
    assert Streak(db, 0) == 0 && Streak(db, 1) == 1;
    pa := InitAllocator(db, first);
  }

  // ---------------------------------------------------------------- any run of requests

  /** A caller asks for pages, or gives back one of the blocks it holds. */
  datatype Request = Alloc(count: nat, mask: bv32, how: Match) | Release(which: nat)

  ghost predicate HeldBy(live: seq<nat>, owner: seq<nat>, r: nat, h: nat)
    requires |live| == |owner|
  {
    exists i {:trigger live[i]} :: 0 <= i < |live| && live[i] == h && owner[i] == r
  }

  ghost predicate Distinct(live: seq<nat>, owner: seq<nat>)
    requires |live| == |owner|
  {
    forall i, j {:trigger live[i], live[j]} :: 0 <= i < j < |live| ==> live[i] != live[j] || owner[i] != owner[j]
  }

  ghost predicate InUse(pa: PageAllocator, r: nat, h: nat)
    requires pa.Valid()
    reads pa, pa.nodes, pa.regions
  {
    r < pa.regionCount && h in Used(pa.shapes[r])
  }

  /** The blocks in use are exactly those that the caller holds. */
  ghost predicate Held(pa: PageAllocator, live: seq<nat>, owner: seq<nat>)
    requires pa.Valid()
    reads pa, pa.nodes, pa.regions
  {
    && |live| == |owner| && Distinct(live, owner)
    && forall r: nat, h: nat {:trigger InUse(pa, r, h)} :: InUse(pa, r, h) <==> HeldBy(live, owner, r, h)
  }

  lemma HeldAppended(live: seq<nat>, owner: seq<nat>, h: nat, r: nat)
    requires |live| == |owner| && Distinct(live, owner) && !HeldBy(live, owner, r, h)
    ensures Distinct(live + [h], owner + [r])
    ensures forall q: nat, g: nat :: HeldBy(live + [h], owner + [r], q, g) <==> HeldBy(live, owner, q, g) || (q == r && g == h)
  {
    var live', owner' := live + [h], owner + [r];
    assert live'[|live|] == h && owner'[|live|] == r;
    forall q: nat, g: nat | HeldBy(live, owner, q, g) ensures HeldBy(live', owner', q, g) {
      var i :| 0 <= i < |live| && live[i] == g && owner[i] == q;
      assert live'[i] == g;
    }
  }

  lemma HeldRemoved(live: seq<nat>, owner: seq<nat>, w: nat)
    requires |live| == |owner| && Distinct(live, owner) && w < |live|
    ensures Distinct(Removed(live, w), Removed(owner, w))
    ensures forall q: nat, g: nat ::
      HeldBy(Removed(live, w), Removed(owner, w), q, g) <==> HeldBy(live, owner, q, g) && !(q == owner[w] && g == live[w])
  {
    var live', owner' := Removed(live, w), Removed(owner, w);
    forall i, j | 0 <= i < j < |live'| ensures live'[i] != live'[j] || owner'[i] != owner'[j] {
      assert live'[i] == live[if i < w then i else i + 1] && live'[j] == live[if j < w then j else j + 1];
    }
    forall q: nat, g: nat
      ensures HeldBy(live', owner', q, g) <==> HeldBy(live, owner, q, g) && !(q == owner[w] && g == live[w])
    {
      if HeldBy(live, owner, q, g) && !(q == owner[w] && g == live[w]) {
        var i :| 0 <= i < |live| && live[i] == g && owner[i] == q;
        assert live'[if i < w then i else i - 1] == g;
      }
      if HeldBy(live', owner', q, g) {
        var i :| 0 <= i < |live'| && live'[i] == g && owner'[i] == q;
        assert live[if i < w then i else i + 1] == g && live[w] == live[w];
      }
    }
  }

  /** The first page of each region, and the page after its last. */
  ghost function Bounds(pa: PageAllocator): seq<(nat, nat)>
    requires pa.Valid()
    reads pa, pa.nodes, pa.regions
  {
    seq(pa.regionCount, r requires 0 <= r < pa.regionCount reads pa requires pa.Sized() && pa.regionCount <= MAX_REGIONS =>
      (pa.shapes[r].lo, pa.shapes[r].hi))
  }

  ghost function Tags(pa: PageAllocator): (tags: seq<bv32>)
    requires pa.Valid()
    reads pa, pa.nodes, pa.regions
    ensures |tags| == pa.regionCount && forall r: nat :: r < |tags| ==> tags[r] == pa.regions[r].tags
  {
    seq(pa.regionCount, r requires 0 <= r < pa.regionCount reads pa, pa.regions requires pa.Sized() && pa.regionCount <= MAX_REGIONS =>
      pa.regions[r].tags)
  }

  ghost predicate InBounds(bounds: seq<(nat, nat)>, p: nat) {
    exists r: nat {:trigger bounds[r]} :: r < |bounds| && bounds[r].0 <= p < bounds[r].1
  }

  lemma ManagedIsInBounds(pa: PageAllocator, p: nat)
    requires pa.Valid()
    ensures pa.Managed(p) <==> InBounds(Bounds(pa), p)
  {
    if pa.Managed(p) {
      var r: nat :| r < pa.regionCount && pa.Owns(r, p);
      assert Bounds(pa)[r].0 <= p;
    }
    if InBounds(Bounds(pa), p) {
      var r: nat :| r < |Bounds(pa)| && Bounds(pa)[r].0 <= p < Bounds(pa)[r].1;
      assert pa.Owns(r, p);
    }
  }

  /** Manages and Tagged depend on no more than the bounds and the tags of the regions. */
  ghost predicate Fits(bounds: seq<(nat, nat)>, tags: seq<bv32>, es: seq<Entry>) {
    && |bounds| == |tags|
    && (forall p: nat {:trigger InBounds(bounds, p)} :: InBounds(bounds, p) <==> p != 0 && InUsable(es, p) && Borders(es, p) % 2 == 0)
    && (forall r: nat, p: nat, i: nat {:trigger bounds[r], UsableIn(es, i, p)} ::
          r < |bounds| && bounds[r].0 <= p < bounds[r].1 && UsableIn(es, i, p) ==> tags[r] == es[i].tags)
  }

  lemma FitsBounds(pa: PageAllocator, es: seq<Entry>)
    requires pa.Valid()
    ensures Fits(Bounds(pa), Tags(pa), es) <==> Manages(pa, es) && Tagged(pa, es)
  {
    forall p: nat ensures pa.Managed(p) <==> InBounds(Bounds(pa), p) { ManagedIsInBounds(pa, p); }
    forall r: nat, p: nat | r < pa.regionCount ensures pa.Owns(r, p) <==> Bounds(pa)[r].0 <= p < Bounds(pa)[r].1 {}
    if Manages(pa, es) && Tagged(pa, es) {
      forall r: nat, p: nat, i: nat | r < |Bounds(pa)| && Bounds(pa)[r].0 <= p < Bounds(pa)[r].1 && UsableIn(es, i, p)
        ensures Tags(pa)[r] == es[i].tags
      {
        assert pa.Owns(r, p);
      }
      assert Fits(Bounds(pa), Tags(pa), es);
    }
  }

  /** No region can serve the request. */
  ghost predicate Refused(pa: PageAllocator, q: Request)
    requires pa.Valid() && q.Alloc?
    reads pa, pa.nodes, pa.regions
  {
    forall r: nat, k: nat {:trigger Serves(pa.shapes[r], k)} ::
      r < pa.regionCount && TagsMatch(pa.regions[r].tags, q.mask, q.how) && q.count <= Pow(k) && (k == 0 || Pow(k - 1) < q.count) ==>
        !Serves(pa.shapes[r], k)
  }

  /** The tilings of the regions, and the blocks that the caller holds with the regions they are from. */
  datatype Moment = Moment(shapes: seq<Shape>, live: seq<nat>, owner: seq<nat>)

  /** Region `r` has matching tags and can serve the request. */
  ghost predicate Able(tags: seq<bv32>, q: Request, s: Moment, r: nat)
    requires q.Alloc?
  {
    r < |tags| && r < |s.shapes| && TagsMatch(tags[r], q.mask, q.how) && Serves(s.shapes[r], LeastOrder(q.count))
  }

  ghost predicate SameBut(s: seq<Shape>, t: seq<Shape>, r: nat) { r < |s| == |t| && t == s[r := t[r]] }

  /** The first region that is able to grants a block of the least order; if there is none, nothing happens. */
  ghost predicate Allots(tags: seq<bv32>, q: Request, s: Moment, t: Moment)
    requires q.Alloc?
  {
    if |t.live| <= |s.live| then t == s && forall r: nat :: !Able(tags, q, s, r) else
      var n := |s.live|;
      && |t.owner| > n && t.live == s.live + [t.live[n]] && t.owner == s.owner + [t.owner[n]]
      && Able(tags, q, s, t.owner[n]) && (forall r: nat :: r < t.owner[n] ==> !Able(tags, q, s, r))
      && SameBut(s.shapes, t.shapes, t.owner[n])
      && PageFrames.Granted(s.shapes[t.owner[n]], t.shapes[t.owner[n]], t.live[n], LeastOrder(q.count))
  }

  /** The region of the block takes it back; if the caller holds no such block, nothing happens. */
  ghost predicate TakesBack(w: nat, s: Moment, t: Moment) {
    if w < |s.live| == |s.owner| then
      && t.live == Removed(s.live, w) && t.owner == Removed(s.owner, w) && SameBut(s.shapes, t.shapes, s.owner[w])
      && Returned(s.shapes[s.owner[w]], t.shapes[s.owner[w]], s.live[w])
    else t == s
  }

  ghost predicate Answers(tags: seq<bv32>, q: Request, s: Moment, t: Moment) {
    match q
    case Alloc(_, _, _) => Allots(tags, q, s, t)
    case Release(which) => TakesBack(which, s, t)
  }

  /** Each request is answered in its turn. */
  ghost predicate AnswersAll(tags: seq<bv32>, requests: seq<Request>, run: seq<Moment>) {
    |run| == |requests| + 1 && forall i {:trigger run[i]} :: 0 <= i < |requests| ==> Answers(tags, requests[i], run[i], run[i + 1])
  }

  lemma AnswersMore(tags: seq<bv32>, requests: seq<Request>, i: nat, run: seq<Moment>, t: Moment)
    requires i < |requests| && AnswersAll(tags, requests[..i], run) && Answers(tags, requests[i], run[i], t)
    ensures AnswersAll(tags, requests[..i + 1], run + [t]) && (run + [t])[0] == run[0] && (run + [t])[i + 1] == t
  {
    var before, now, run' := requests[..i], requests[..i + 1], run + [t];
    forall k | 0 <= k < |now| ensures Answers(tags, now[k], run'[k], run'[k + 1]) {
      if k < i { assert now[k] == before[k] && Answers(tags, before[k], run[k], run[k + 1]); }
    }
  }

  /** The request is refused if and only if no region is able to serve it. */
  lemma RefusedIfNoneAble(pa: PageAllocator, q: Request, s: Moment)
    requires pa.Valid() && q.Alloc? && s.shapes == pa.shapes
    ensures Refused(pa, q) <==> forall r: nat :: !Able(Tags(pa), q, s, r)
  {
    var k := LeastOrder(q.count);
    if Refused(pa, q) {
      forall r: nat ensures !Able(Tags(pa), q, s, r) {}
    }
    if forall r: nat :: !Able(Tags(pa), q, s, r) {
      forall r: nat, j: nat | r < pa.regionCount && TagsMatch(pa.regions[r].tags, q.mask, q.how) && q.count <= Pow(j) && (j == 0 || Pow(j - 1) < q.count)
        ensures !Serves(pa.shapes[r], j)
      {
        SameOrder(q.count, j, k);
        assert !Able(Tags(pa), q, s, r);
      }
    }
  }

  method TakePages(pa: PageAllocator, q: Request, ghost s: Moment) returns (pfn: nat, ghost r: nat)
    requires pa.Valid() && q.Alloc? && q.count <= 0x8000 && s.shapes == pa.shapes
    modifies pa.nodes, pa.regions, pa`lists, pa`shapes, pa`history
    ensures pa.Valid() && Bounds(pa) == old(Bounds(pa)) && Tags(pa) == old(Tags(pa))
    ensures pfn == 0 ==> pa.shapes == old(pa.shapes) && forall p: nat :: !Able(Tags(pa), q, s, p)
    ensures pfn != 0 ==> Able(Tags(pa), q, s, r) && forall p: nat :: p < r ==> !Able(Tags(pa), q, s, p)
    ensures pfn != 0 ==> SameBut(s.shapes, pa.shapes, r) && PageFrames.Granted(s.shapes[r], pa.shapes[r], pfn, LeastOrder(q.count))
  {
    ghost var k;
    pfn, r, k := pa.PallocTag(q.count, q.mask, q.how);
    SameOrder(q.count, k, LeastOrder(q.count));
  }

  method ServeAlloc(pa: PageAllocator, q: Request, live: seq<nat>, ghost owner: seq<nat>)
    returns (live': seq<nat>, ghost owner': seq<nat>)
    requires pa.Valid() && Held(pa, live, owner) && q.Alloc? && q.count <= 0x8000
    modifies pa.nodes, pa.regions, pa`lists, pa`shapes, pa`history
    ensures live <= live' && |live'| == |live| + if old(Refused(pa, q)) then 0 else 1
    ensures pa.Valid() && Held(pa, live', owner') && Bounds(pa) == old(Bounds(pa)) && Tags(pa) == old(Tags(pa))
    ensures Allots(Tags(pa), q, Moment(old(pa.shapes), live, owner), Moment(pa.shapes, live', owner'))
  {
    ghost var s := Moment(pa.shapes, live, owner);
    RefusedIfNoneAble(pa, q, s);
    var pfn, r := TakePages(pa, q, s);
    live', owner' := live, owner;
    if pfn != 0 {
      assert !old(InUse(pa, r, pfn));
      HeldAppended(live, owner, pfn, r);
      live', owner' := live + [pfn], owner + [r];
    }
    forall q: nat, h: nat ensures InUse(pa, q, h) <==> HeldBy(live', owner', q, h) {
      assert old(InUse(pa, q, h)) <==> HeldBy(live, owner, q, h);
    }
  }

  method ServeRelease(pa: PageAllocator, w: nat, live: seq<nat>, ghost owner: seq<nat>)
    returns (live': seq<nat>, ghost owner': seq<nat>)
    requires pa.Valid() && Held(pa, live, owner) && w < |live|
    modifies pa.nodes, pa.regions, pa`lists, pa`shapes, pa`history
    ensures pa.Valid() && Held(pa, live', owner') && Bounds(pa) == old(Bounds(pa)) && Tags(pa) == old(Tags(pa))
    ensures TakesBack(w, Moment(old(pa.shapes), live, owner), Moment(pa.shapes, live', owner'))
  {
    assert HeldBy(live, owner, owner[w], live[w]);
    assert InUse(pa, owner[w], live[w]);
    var count := pa.Pfree(live[w], owner[w]);
    HeldRemoved(live, owner, w);
    live', owner' := Removed(live, w), Removed(owner, w);
    forall q: nat, h: nat ensures InUse(pa, q, h) <==> HeldBy(live', owner', q, h) {
      assert old(InUse(pa, q, h)) <==> HeldBy(live, owner, q, h);
    }
  }

  method ServeOne(pa: PageAllocator, q: Request, live: seq<nat>, ghost owner: seq<nat>)
    returns (live': seq<nat>, ghost owner': seq<nat>)
    requires pa.Valid() && Held(pa, live, owner) && (q.Alloc? ==> q.count <= 0x8000)
    modifies pa.nodes, pa.regions, pa`lists, pa`shapes, pa`history
    ensures pa.Valid() && Held(pa, live', owner') && Bounds(pa) == old(Bounds(pa)) && Tags(pa) == old(Tags(pa))
    ensures Answers(Tags(pa), q, Moment(old(pa.shapes), live, owner), Moment(pa.shapes, live', owner'))
  {
    live', owner' := live, owner;
    if q.Alloc? {
      live', owner' := ServeAlloc(pa, q, live, owner);
    } else if q.which < |live| {
      live', owner' := ServeRelease(pa, q.which, live, owner);
    }
  }

  /** Serves requests in turn, from an allocator with no block in use; `run` says how it stood before
      each request and at the end. */
  method Serve(pa: PageAllocator, requests: seq<Request>, ghost es: seq<Entry>)
    returns (live: seq<nat>, ghost owner: seq<nat>, ghost run: seq<Moment>)
    requires pa.Valid() && Held(pa, [], []) && Manages(pa, es) && Tagged(pa, es)
    requires forall i :: 0 <= i < |requests| && requests[i].Alloc? ==> requests[i].count <= 0x8000
    modifies pa.nodes, pa.regions, pa`lists, pa`shapes, pa`history
    ensures pa.Valid() && Held(pa, live, owner) && Manages(pa, es) && Tagged(pa, es)
    ensures AnswersAll(Tags(pa), requests, run) && run[0] == Moment(old(pa.shapes), [], []) && run[|requests|] == Moment(pa.shapes, live, owner)
  {
    FitsBounds(pa, es);
    live, owner := [], [];
    run := [Moment(pa.shapes, [], [])];
    var i := 0;
    while i < |requests|
      invariant 0 <= i <= |requests| && pa.Valid() && Held(pa, live, owner) && Bounds(pa) == old(Bounds(pa)) && Tags(pa) == old(Tags(pa))
      invariant AnswersAll(Tags(pa), requests[..i], run) && run[0] == Moment(old(pa.shapes), [], []) && run[i] == Moment(pa.shapes, live, owner)
    {
      live, owner := ServeOne(pa, requests[i], live, owner);
      ghost var now := Moment(pa.shapes, live, owner);
      AnswersMore(Tags(pa), requests, i, run, now);
      run := run + [now];
      i := i + 1;
    }
    assert requests[..i] == requests;
    FitsBounds(pa, es);
  }

  /** Whatever was asked for and given back, the same blocks in use leave the same free blocks. */
  ghost predicate Canonical(pa: PageAllocator)
    requires pa.Valid()
    reads pa, pa.nodes, pa.regions
  {
    forall r: nat, i: nat, j: nat {:trigger pa.history[r][i], pa.history[r][j]} ::
      r < pa.regionCount && i < |pa.history[r]| && j < |pa.history[r]| && Used(pa.history[r][i]) == Used(pa.history[r][j]) ==>
        pa.history[r][i] == pa.history[r][j]
  }

  /** Page `p` belongs to the block in use at `h`. */
  ghost predicate Granted(pa: PageAllocator, r: nat, h: nat, p: nat)
    requires pa.Valid()
    reads pa, pa.nodes, pa.regions
  {
    InUse(pa, r, h) && Within(h, Used(pa.shapes[r])[h], p)
  }

  /** Every page of a block in use lies wholly inside a usable entry of the map, and none is page 0. */
  ghost predicate Granting(pa: PageAllocator, es: seq<Entry>)
    requires pa.Valid()
    reads pa, pa.nodes, pa.regions
  {
    forall r: nat, h: nat, p: nat {:trigger Granted(pa, r, h, p)} :: Granted(pa, r, h, p) ==> p != 0 && InUsable(es, p)
  }

  lemma InUseIsUsable(pa: PageAllocator, es: seq<Entry>)
    requires pa.Valid() && Manages(pa, es)
    ensures Granting(pa, es)
  {
    forall r: nat, h: nat, p: nat | Granted(pa, r, h, p) ensures p != 0 && InUsable(es, p) {
      assert pa.RegionOk(r);
      assert pa.shapes[r].BlockOk(h);
      assert pa.Owns(r, p);
      assert pa.Managed(p);
    }
  }

  /** The whole way: from a sorted boot map over any run of requests, each answered in its turn.  When the
      caller has given everything back, every region consists of the very blocks that it was created with. */
  method BootAndServe(m: MemoryMap, requests: seq<Request>)
    returns (pa: PageAllocator, live: seq<nat>, ghost owner: seq<nat>, ghost run: seq<Moment>)
    requires m.Valid() && MemMap.Sorted(m.Live()) && m.num > 0 && RegionsOf(m.entries[..m.num]) <= MAX_REGIONS
    requires forall i :: 0 <= i < |requests| && requests[i].Alloc? ==> requests[i].count <= 0x8000
    ensures pa.Valid() && Held(pa, live, owner) && Manages(pa, m.entries[..m.num]) && Granting(pa, m.entries[..m.num])
    ensures Canonical(pa) && Tagged(pa, m.entries[..m.num]) && AnswersAll(Tags(pa), requests, run)
    ensures run[0].live == [] && run[0].owner == [] && run[|requests|] == Moment(pa.shapes, live, owner)
    ensures forall r: nat :: r < pa.regionCount ==> r < |run[0].shapes| && Used(run[0].shapes[r]) == map[]
    ensures live == [] ==> forall r: nat :: r < pa.regionCount ==> pa.shapes[r] == pa.history[r][0] && Initial(pa.shapes[r])
  {
    ghost var es := m.entries[..m.num];
    pa := InitMemory(m);
    assert Held(pa, [], []);
    live, owner, run := Serve(pa, requests, es);
    InUseIsUsable(pa, es);
    AlwaysCanonical(pa);
    if live == [] {
      forall r: nat | r < pa.regionCount ensures pa.shapes[r] == pa.history[r][0] && Initial(pa.shapes[r]) {
        NothingHeld(pa, r, live, owner);
        pa.FreeingAllRestores(r);
      }
    }
  }

  lemma AlwaysCanonical(pa: PageAllocator)
    requires pa.Valid()
    ensures Canonical(pa)
  {
    forall r: nat, i: nat, j: nat | r < pa.regionCount && i < |pa.history[r]| && j < |pa.history[r]| && Used(pa.history[r][i]) == Used(pa.history[r][j])
      ensures pa.history[r][i] == pa.history[r][j]
    {
      pa.SameUseSameBlocks(r, i, j);
    }
  }

  lemma NothingHeld(pa: PageAllocator, r: nat, live: seq<nat>, owner: seq<nat>)
    requires pa.Valid() && r < pa.regionCount && live == [] && Held(pa, live, owner)
    ensures Used(pa.shapes[r]) == map[]
  {
    forall h: nat ensures h !in Used(pa.shapes[r]) { assert !InUse(pa, r, h); }
    assert Used(pa.shapes[r]).Keys == {};
  }
}
