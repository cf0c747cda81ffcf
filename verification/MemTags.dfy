/** Tags of memory regions and the ways a request can match them. */
module MemTags {

  datatype Match = MatchIgnore | MatchExact | MatchSetAll | MatchSetAny | MatchUnsetAll | MatchUnsetAny | MatchUnknown

  predicate TagsMatch(tags: bv32, mask: bv32, how: Match) {
    match how
    case MatchIgnore => true
    case MatchExact => tags == mask
    case MatchSetAll => tags & mask == mask
    case MatchSetAny => tags & mask != 0
    case MatchUnsetAll => !tags & mask == mask
    case MatchUnsetAny => !tags & mask != 0
    case MatchUnknown => false
  }

  // ---------------------------------------------------------------- bit by bit

  /** Bit `i` of a word of 32 bits. */
  predicate Bit(x: bv32, i: bv5) { (x >> i) & 1 == 1 }

  lemma ZeroWord(x: bv32)
    requires forall i: bv5 :: !Bit(x, i)
    ensures x == 0
  {
    assert !Bit(x, 0) && !Bit(x, 1) && !Bit(x, 2) && !Bit(x, 3) && !Bit(x, 4) && !Bit(x, 5) && !Bit(x, 6) && !Bit(x, 7);
    assert !Bit(x, 8) && !Bit(x, 9) && !Bit(x, 10) && !Bit(x, 11) && !Bit(x, 12) && !Bit(x, 13) && !Bit(x, 14) && !Bit(x, 15);
    assert !Bit(x, 16) && !Bit(x, 17) && !Bit(x, 18) && !Bit(x, 19) && !Bit(x, 20) && !Bit(x, 21) && !Bit(x, 22) && !Bit(x, 23);
    assert !Bit(x, 24) && !Bit(x, 25) && !Bit(x, 26) && !Bit(x, 27) && !Bit(x, 28) && !Bit(x, 29) && !Bit(x, 30) && !Bit(x, 31);
  }

  lemma NoDifference(x: bv32, y: bv32)
    requires x ^ y == 0
    ensures x == y
  {
  }

  /** Words are equal if all their bits are. */
  lemma SameWord(x: bv32, y: bv32)
    ensures x == y <==> forall i: bv5 :: Bit(x, i) == Bit(y, i)
  {
    if forall i: bv5 :: Bit(x, i) == Bit(y, i) {
      var z := x ^ y;
      forall i: bv5 ensures !Bit(z, i) { BitXor(x, y, i); }
      ZeroWord(z);
      NoDifference(x, y);
    }
  }

  lemma BitXor(x: bv32, y: bv32, i: bv5)
    ensures Bit(x ^ y, i) <==> Bit(x, i) != Bit(y, i)
  {
  }

  lemma BitOf(x: bv32, y: bv32, i: bv5)
    ensures Bit(x & y, i) <==> Bit(x, i) && Bit(y, i)
    ensures Bit(!x & y, i) <==> !Bit(x, i) && Bit(y, i)
    ensures !Bit(0, i)
  {
  }

  // What each way to match asks of the bits of the tags.

  ghost predicate HasBits(tags: bv32, mask: bv32) { forall i: bv5 :: Bit(mask, i) ==> Bit(tags, i) }

  lemma MatchSet(tags: bv32, mask: bv32)
    ensures TagsMatch(tags, mask, MatchSetAll) <==> HasBits(tags, mask)
    ensures TagsMatch(tags, mask, MatchSetAny) <==> exists i: bv5 :: Bit(mask, i) && Bit(tags, i)
  {
    var both := tags & mask;
    forall i: bv5 ensures (Bit(both, i) <==> Bit(tags, i) && Bit(mask, i)) && !Bit(0, i) { BitOf(tags, mask, i); }
    SameWord(both, mask);
    SameWord(both, 0);
  }

  lemma MatchUnset(tags: bv32, mask: bv32)
    ensures TagsMatch(tags, mask, MatchUnsetAll) <==> forall i: bv5 :: Bit(mask, i) ==> !Bit(tags, i)
    ensures TagsMatch(tags, mask, MatchUnsetAny) <==> exists i: bv5 :: Bit(mask, i) && !Bit(tags, i)
  {
    var left := !tags & mask;
    forall i: bv5 ensures (Bit(left, i) <==> !Bit(tags, i) && Bit(mask, i)) && !Bit(0, i) { BitOf(tags, mask, i); }
    SameWord(left, mask);
    SameWord(left, 0);
  }

  lemma MatchRest(tags: bv32, mask: bv32)
    ensures TagsMatch(tags, mask, MatchIgnore) && !TagsMatch(tags, mask, MatchUnknown)
    ensures TagsMatch(tags, mask, MatchExact) <==> forall i: bv5 :: Bit(tags, i) == Bit(mask, i)
  {
    SameWord(tags, mask);
  }

  // ---------------------------------------------------------------- choosing a region

  datatype Way = Way(how: Match, mask: bv32)

  /** A region's tags, and whether it can serve the request at hand. */
  datatype Offer = Offer(tags: bv32, serves: bool)

  ghost predicate Takes(w: Way, o: Offer) { o.serves && TagsMatch(o.tags, w.mask, w.how) }

  /** No region that matches can serve the request. */
  ghost predicate Fruitless(offers: seq<Offer>, w: Way) { forall q :: 0 <= q < |offers| ==> !Takes(w, offers[q]) }

  /** Way `w` is the first that any region satisfies, and region `r` does; `|ways|` if there is none. */
  ghost predicate Chosen(offers: seq<Offer>, ways: seq<Way>, w: nat, r: nat) {
    && w <= |ways| && (forall v :: 0 <= v < w ==> Fruitless(offers, ways[v]))
    && (w < |ways| ==> r < |offers| && Takes(ways[w], offers[r]))
  }

  // ---------------------------------------------------------------- what the page allocator's callers try

  const TAG_NORMAL: bv32 := 0x1
  const TAG_DIRECT_MAPPED: bv32 := 0x2
  const TAG_DIRECT_ACCESS: bv32 := 0x4

  const MAPPED_WAYS := [
    Way(MatchExact, TAG_NORMAL | TAG_DIRECT_MAPPED | TAG_DIRECT_ACCESS),
    Way(MatchSetAll, TAG_NORMAL | TAG_DIRECT_MAPPED | TAG_DIRECT_ACCESS),
    Way(MatchExact, TAG_NORMAL | TAG_DIRECT_MAPPED),
    Way(MatchSetAll, TAG_NORMAL | TAG_DIRECT_MAPPED)]

  const ANY_WAYS := MAPPED_WAYS + [Way(MatchExact, TAG_NORMAL), Way(MatchSetAll, TAG_NORMAL), Way(MatchIgnore, 0)]

  /** The tags of normal memory, of the part of it that is mapped directly, and of the part of that
      which is accessible directly. */
  predicate Normal(tags: bv32) { Bit(tags, 0) }

  predicate Mapped(tags: bv32) { Bit(tags, 0) && Bit(tags, 1) }

  predicate Direct(tags: bv32) { Bit(tags, 0) && Bit(tags, 1) && Bit(tags, 2) }

  /** No region with tags that are wanted can serve the request. */
  ghost predicate Lacks(offers: seq<Offer>, wanted: bv32 -> bool) {
    forall q :: 0 <= q < |offers| && offers[q].serves ==> !wanted(offers[q].tags)
  }

  lemma LowBits(i: bv5)
    ensures Bit(TAG_NORMAL, i) <==> i == 0
    ensures Bit(TAG_NORMAL | TAG_DIRECT_MAPPED, i) <==> i == 0 || i == 1
    ensures Bit(TAG_NORMAL | TAG_DIRECT_MAPPED | TAG_DIRECT_ACCESS, i) <==> i == 0 || i == 1 || i == 2
  {
  }

  lemma WantedTags(tags: bv32)
    ensures TagsMatch(tags, TAG_NORMAL, MatchSetAll) <==> Normal(tags)
    ensures TagsMatch(tags, TAG_NORMAL | TAG_DIRECT_MAPPED, MatchSetAll) <==> Mapped(tags)
    ensures TagsMatch(tags, TAG_NORMAL | TAG_DIRECT_MAPPED | TAG_DIRECT_ACCESS, MatchSetAll) <==> Direct(tags)
  {
    MatchSet(tags, TAG_NORMAL);
    MatchSet(tags, TAG_NORMAL | TAG_DIRECT_MAPPED);
    MatchSet(tags, TAG_NORMAL | TAG_DIRECT_MAPPED | TAG_DIRECT_ACCESS);
    forall i: bv5
      ensures Bit(TAG_NORMAL, i) <==> i == 0
      ensures Bit(TAG_NORMAL | TAG_DIRECT_MAPPED, i) <==> i == 0 || i == 1
      ensures Bit(TAG_NORMAL | TAG_DIRECT_MAPPED | TAG_DIRECT_ACCESS, i) <==> i == 0 || i == 1 || i == 2
    {
      LowBits(i);
    }
  }

  /** What each of the ways finds. */
  lemma WaysFind(tags: bv32)
    ensures TagsMatch(tags, ANY_WAYS[0].mask, MatchExact) ==> Direct(tags)
    ensures TagsMatch(tags, ANY_WAYS[1].mask, MatchSetAll) <==> Direct(tags)
    ensures TagsMatch(tags, ANY_WAYS[2].mask, MatchExact) ==> Mapped(tags)
    ensures TagsMatch(tags, ANY_WAYS[3].mask, MatchSetAll) <==> Mapped(tags)
    ensures TagsMatch(tags, ANY_WAYS[4].mask, MatchExact) ==> Normal(tags)
    ensures TagsMatch(tags, ANY_WAYS[5].mask, MatchSetAll) <==> Normal(tags)
  {
    WantedTags(tags);
    LowBits(0);
    LowBits(1);
    LowBits(2);
  }

  lemma MappedChoice(offers: seq<Offer>, w: nat, r: nat)
    requires Chosen(offers, MAPPED_WAYS, w, r)
    ensures (w == |MAPPED_WAYS| <==> Lacks(offers, Mapped)) && (w < |MAPPED_WAYS| ==> Mapped(offers[r].tags))
    ensures !Lacks(offers, Direct) ==> w < |MAPPED_WAYS| && Direct(offers[r].tags)
  {
    forall q | 0 <= q < |offers|
      ensures w > 1 && offers[q].serves ==> !Direct(offers[q].tags)
      ensures w > 3 && offers[q].serves ==> !Mapped(offers[q].tags)
    {
      WaysFind(offers[q].tags);
      assert w > 1 ==> Fruitless(offers, MAPPED_WAYS[1]);
      assert w > 3 ==> Fruitless(offers, MAPPED_WAYS[3]);
    }
    if w < 4 { WaysFind(offers[r].tags); }
  }

  lemma AnyChoice(offers: seq<Offer>, w: nat, r: nat)
    requires Chosen(offers, ANY_WAYS, w, r)
    ensures w == |ANY_WAYS| <==> forall q :: 0 <= q < |offers| ==> !offers[q].serves
    ensures !Lacks(offers, Normal) ==> w < |ANY_WAYS| && Normal(offers[r].tags)
    ensures !Lacks(offers, Mapped) ==> w < |ANY_WAYS| && Mapped(offers[r].tags)
    ensures !Lacks(offers, Direct) ==> w < |ANY_WAYS| && Direct(offers[r].tags)
  {
    forall q | 0 <= q < |offers|
      ensures w > 1 && offers[q].serves ==> !Direct(offers[q].tags)
      ensures w > 3 && offers[q].serves ==> !Mapped(offers[q].tags)
      ensures w > 5 && offers[q].serves ==> !Normal(offers[q].tags)
      ensures w > 6 ==> !offers[q].serves
    {
      WaysFind(offers[q].tags);
      assert w > 1 ==> Fruitless(offers, ANY_WAYS[1]);
      assert w > 3 ==> Fruitless(offers, ANY_WAYS[3]);
      assert w > 5 ==> Fruitless(offers, ANY_WAYS[5]);
      assert w > 6 ==> Fruitless(offers, ANY_WAYS[6]);
    }
    if w < 7 { WaysFind(offers[r].tags); }
  }
}
