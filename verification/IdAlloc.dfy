/** Identifiers drawn from a bitmap with up to two levels of summary bitmaps above it.

    Bits are numbered through within a level.  Bit `i` of a level summarises word `i` of the level
    below, that is, the bits whose number divided by the word size is `i`. */
module IdAlloc {
  import opened Pow2

  // ---------------------------------------------------------------- bitmaps as values

  /** `maps[l]` holds the bits of level `l`, counted from 1; the last level has a bit per identifier. */
  ghost predicate Bit(maps: seq<seq<bool>>, l: nat, i: nat) { l < |maps| && i < |maps[l]| && maps[l][i] }

  ghost predicate WordUsed(maps: seq<seq<bool>>, l: nat, w: nat, bits: nat)
    requires bits > 0
  {
    exists j: nat :: Bit(maps, l, j) && j / bits == w
  }

  /** A summary bit is set if and only if the word below it is not zero. */
  ghost predicate Sums(maps: seq<seq<bool>>, l: nat, i: nat, bits: nat)
    requires bits > 0
  {
    Bit(maps, l, i) <==> WordUsed(maps, l + 1, i, bits)
  }

  /** Whole words, one at the top, and a summary bit for each. */
  ghost predicate Sized(maps: seq<seq<bool>>, bits: nat) {
    && bits > 1 && |maps| > 1 && |maps[1]| == bits
    && forall l: nat {:trigger Nested(maps, l, bits)} :: 1 <= l < |maps| - 1 ==> Nested(maps, l, bits)
  }

  /** A word that has any bit is there as a whole, and it has a bit above it. */
  ghost predicate Nested(maps: seq<seq<bool>>, l: nat, bits: nat)
    requires bits > 1 && l + 1 < |maps|
  {
    |maps[l + 1]| % bits == 0 && |maps[l + 1]| / bits <= |maps[l]|
  }

  /** Every summary bit is right, except perhaps bit `i` of level `skip`. */
  ghost predicate SummedBut(maps: seq<seq<bool>>, bits: nat, skip: nat, i: nat) {
    && Sized(maps, bits)
    && forall l: nat, j: nat {:trigger Sums(maps, l, j, bits)} ::
         1 <= l < |maps| - 1 && !(l == skip && j == i) ==> Sums(maps, l, j, bits)
  }

  ghost predicate IsLeast(maps: seq<seq<bool>>, l: nat, i: nat) {
    Bit(maps, l, i) && forall j: nat {:trigger Bit(maps, l, j)} :: Bit(maps, l, j) ==> i <= j
  }

  // ---------------------------------------------------------------- arithmetic of words

  lemma InWord(bits: nat, w: nat, p: nat)
    requires p < bits
    ensures (bits * w + p) / bits == w && (bits * w + p) % bits == p
  {
    DivModUnique(bits * w + p, bits, w, p);
  }

  lemma WordOrder(bits: nat, i: nat, j: nat)
    requires bits > 0 && i / bits < j / bits
    ensures i < j
  {
    assert i == bits * (i / bits) + i % bits && j == bits * (j / bits) + j % bits;
    MulLe(bits, i / bits + 1, j / bits);
    assert bits * (i / bits + 1) == bits * (i / bits) + bits;
  }

  /** A word of whole words lies inside the bitmap if one of its bits does. */
  lemma WholeWord(bits: nat, n: nat, w: nat)
    requires bits > 0 && n % bits == 0 && w < n / bits
    ensures bits * w + bits <= n
  {
    assert n == bits * (n / bits);
    MulLe(bits, w + 1, n / bits);
    assert bits * (w + 1) == bits * w + bits;
  }

  lemma WordBelow(bits: nat, n: nat, j: nat)
    requires bits > 0 && n % bits == 0 && j < n
    ensures j / bits < n / bits
  {
    assert n == bits * (n / bits) && j == bits * (j / bits) + j % bits;
    if j / bits >= n / bits { MulLe(bits, n / bits, j / bits); }
  }

  /** The word summarised by a set bit is there. */
  lemma WordThere(maps: seq<seq<bool>>, bits: nat, l: nat, w: nat)
    requires Sized(maps, bits) && 1 <= l < |maps| - 1 && WordUsed(maps, l + 1, w, bits)
    ensures w < |maps[l]| && bits * w + bits <= |maps[l + 1]|
  {
    assert Nested(maps, l, bits);
    var j: nat :| Bit(maps, l + 1, j) && j / bits == w;
    WordBelow(bits, |maps[l + 1]|, j);
    WholeWord(bits, |maps[l + 1]|, w);
  }

  /** The bit above a bit is there. */
  lemma BitAbove(maps: seq<seq<bool>>, bits: nat, l: nat, j: nat)
    requires Sized(maps, bits) && 1 < l < |maps| && j < |maps[l]|
    ensures j / bits < |maps[l - 1]|
  {
    assert Nested(maps, l - 1, bits);
    WordBelow(bits, |maps[l]|, j);
  }

  // ---------------------------------------------------------------- the least free identifier

  /** The least set bit of the word below the least set bit is the least set bit of its level. */
  lemma LeastBelow(maps: seq<seq<bool>>, bits: nat, l: nat, i: nat, c: nat)
    requires SummedBut(maps, bits, 0, 0) && 1 <= l < |maps| - 1 && IsLeast(maps, l, i)
    requires Bit(maps, l + 1, c) && c / bits == i
    requires forall j: nat {:trigger Bit(maps, l + 1, j)} :: Bit(maps, l + 1, j) && j / bits == i ==> c <= j
    ensures IsLeast(maps, l + 1, c)
  {
    var k := l + 1;
    forall j: nat {:trigger Bit(maps, k, j)} | Bit(maps, k, j) ensures c <= j {
      assert WordUsed(maps, k, j / bits, bits);
      assert Sums(maps, l, j / bits, bits);
      if i < j / bits { WordOrder(bits, c, j); }
    }
  }

  // ---------------------------------------------------------------- changing one bit

  ghost function Put(maps: seq<seq<bool>>, l: nat, i: nat, b: bool): seq<seq<bool>>
    requires l < |maps| && i < |maps[l]|
  {
    maps[l := maps[l][i := b]]
  }

  lemma PutBit(maps: seq<seq<bool>>, l: nat, i: nat, b: bool, k: nat, j: nat)
    requires l < |maps| && i < |maps[l]|
    ensures Bit(Put(maps, l, i, b), k, j) <==> if k == l && j == i then b else Bit(maps, k, j)
  {
  }

  lemma PutSized(maps: seq<seq<bool>>, bits: nat, l: nat, i: nat, b: bool)
    requires Sized(maps, bits) && l < |maps| && i < |maps[l]|
    ensures Sized(Put(maps, l, i, b), bits)
  {
    var n := Put(maps, l, i, b);
    forall k: nat | 1 <= k < |n| - 1 ensures Nested(n, k, bits) { assert Nested(maps, k, bits); }
  }

  lemma PutWord(maps: seq<seq<bool>>, l: nat, i: nat, b: bool, bits: nat, k: nat, w: nat)
    requires bits > 0 && l < |maps| && i < |maps[l]| && !(k == l && w == i / bits)
    ensures WordUsed(Put(maps, l, i, b), k, w, bits) <==> WordUsed(maps, k, w, bits)
  {
    var n := Put(maps, l, i, b);
    if WordUsed(maps, k, w, bits) {
      var j: nat :| Bit(maps, k, j) && j / bits == w;
      PutBit(maps, l, i, b, k, j);
    }
    if WordUsed(n, k, w, bits) {
      var j: nat :| Bit(n, k, j) && j / bits == w;
      PutBit(maps, l, i, b, k, j);
    }
  }

  /** Changing a bit that may be wrong leaves only the bit above it to be wrong, provided the
      changed one is right now. */
  lemma PutKeeps(maps: seq<seq<bool>>, bits: nat, l: nat, i: nat, b: bool)
    requires SummedBut(maps, bits, l, i) && 1 <= l < |maps| && i < |maps[l]|
    requires l < |maps| - 1 ==> (b <==> WordUsed(maps, l + 1, i, bits))
    ensures SummedBut(Put(maps, l, i, b), bits, l - 1, i / bits)
  {
    var n := Put(maps, l, i, b);
    PutSized(maps, bits, l, i, b);
    forall k: nat, j: nat | 1 <= k < |n| - 1 && !(k == l - 1 && j == i / bits) ensures Sums(n, k, j, bits) {
      PutBit(maps, l, i, b, k, j);
      PutWord(maps, l, i, b, bits, k + 1, j);
      if !(k == l && j == i) { assert Sums(maps, k, j, bits); }
    }
  }

  /** The doubtful bit turns out to be right. */
  lemma AllRight(maps: seq<seq<bool>>, bits: nat, l: nat, i: nat)
    requires SummedBut(maps, bits, l, i) && (1 <= l < |maps| - 1 ==> Sums(maps, l, i, bits))
    ensures SummedBut(maps, bits, 0, 0)
  {
    forall k: nat, j: nat | 1 <= k < |maps| - 1 ensures Sums(maps, k, j, bits) {
      if !(k == l && j == i) { assert Sums(maps, k, j, bits); }
    }
  }

  lemma Weaken(maps: seq<seq<bool>>, bits: nat, l: nat, i: nat)
    requires SummedBut(maps, bits, 0, 0)
    ensures SummedBut(maps, bits, l, i)
  {
    forall k: nat, j: nat | 1 <= k < |maps| - 1 ensures Sums(maps, k, j, bits) { assert Sums(maps, k, j, bits); }
  }

  /** Above a set bit there are set bits all the way up. */
  lemma {:induction false} SomeBitAbove(maps: seq<seq<bool>>, bits: nat, l: nat, j: nat)
    requires SummedBut(maps, bits, 0, 0) && 1 <= l < |maps| && Bit(maps, l, j)
    ensures WordUsed(maps, 1, 0, bits)
    decreases l
  {
    if l == 1 {
      DivModUnique(j, bits, 0, j);
      assert Bit(maps, 1, j) && j / bits == 0;
    } else {
      assert WordUsed(maps, (l - 1) + 1, j / bits, bits);
      assert Sums(maps, l - 1, j / bits, bits);
      SomeBitAbove(maps, bits, l - 1, j / bits);
    }
  }

  // ---------------------------------------------------------------- a fresh bitmap

  /** The first `n` bits are set and no others. */
  ghost predicate Prefix(s: seq<bool>, n: nat) { n <= |s| && forall i: nat :: i < |s| ==> (s[i] <==> i < n) }

  /** `k` words hold `n` bits. */
  predicate WordsFor(bits: nat, n: nat, k: nat) { bits * k - bits < n <= bits * k }

  lemma PrefixSums(maps: seq<seq<bool>>, bits: nat, l: nat, n: nat, k: nat, i: nat)
    requires bits > 1 && l + 1 < |maps| && Prefix(maps[l], k) && Prefix(maps[l + 1], n) && WordsFor(bits, n, k)
    ensures Sums(maps, l, i, bits)
  {
    InWord(bits, i, 0);
    if i < k {
      MulLe(bits, i, k - 1);
      assert bits * (k - 1) == bits * k - bits;
      assert Bit(maps, l + 1, bits * i);
    } else {
      MulLe(bits, k, i);
      forall j: nat | Bit(maps, l + 1, j) ensures j / bits != i { assert j == bits * (j / bits) + j % bits; }
    }
  }

  /** The word whose lowest `n` bits are set. */
  function Mask(bits: nat, n: nat): (s: seq<bool>)
    requires n <= bits
    ensures |s| == bits && Prefix(s, n)
  {
    seq(bits, i => i < n)
  }

  /** A bitmap whose first `n` bits are set, written word by word; `k` words are needed. */
  method FillBottom(bits: nat, n: nat) returns (s: seq<bool>, k: nat)
    requires bits > 1 && n > 0
    ensures Prefix(s, n) && WordsFor(bits, n, k) && |s| == bits * k
  {
    var count := n;
    s, k := [], 0;
    assert bits * 0 == 0;
    while count > 0
      invariant 0 <= count <= n && |s| == bits * k && (count > 0 ==> n == bits * k + count) && Prefix(s, if count > 0 then bits * k else n)
      invariant count == 0 ==> WordsFor(bits, n, k)
    {
      assert bits * (k + 1) == bits * k + bits;
      if count >= bits {
        s := s + Mask(bits, bits);
        count := count - bits;
      } else {
        s := s + Mask(bits, count);
        count := 0;
      }
      k := k + 1;
    }
  }

  /** A summary for `k` words, one bit set after the other. */
  method FillSummary(k: nat, size: nat) returns (s: seq<bool>)
    requires k <= size
    ensures |s| == size && Prefix(s, k)
  {
    s := seq(size, _ => false);
    var i := 0;
    while i < k
      invariant 0 <= i <= k && |s| == size && Prefix(s, i)
    {
      s := s[i := true];
      i := i + 1;
    }
  }

  lemma FewWords(bits: nat, n: nat, k: nat, m: nat)
    requires bits > 0 && WordsFor(bits, n, k) && n <= bits * m
    ensures k <= m
  {
    assert bits * (k - 1) == bits * k - bits;
    if k > m { MulLe(bits, m, k - 1); }
  }

  /** The word of the next bit: a new one exactly if the words so far are full. */
  lemma NextWord(bits: nat, i: nat, done: nat)
    requires bits > 1 && WordsFor(bits, i, done)
    ensures i == bits * done ==> i / bits == done && WordsFor(bits, i + 1, done + 1)
    ensures i != bits * done ==> done > 0 && i / bits == done - 1 && WordsFor(bits, i + 1, done)
  {
    assert bits * (done + 1) == bits * done + bits;
    if i == bits * done {
      DivModUnique(i, bits, done, 0);
    } else {
      assert done == 0 ==> bits * done == 0;
      assert bits * (done - 1) == bits * done - bits;
      DivModUnique(i, bits, done - 1, i - bits * (done - 1));
    }
  }

  lemma WordsNeeded(bits: nat, k: nat)
    requires bits > 1
    ensures WordsFor(bits, k, k / bits + if k % bits == 0 then 0 else 1)
  {
    assert k == bits * (k / bits) + k % bits;
    assert bits * (k / bits + 1) == bits * (k / bits) + bits;
  }

  lemma WholeWords(maps: seq<seq<bool>>, bits: nat, l: nat, k: nat)
    requires bits > 1 && l + 1 < |maps| && |maps[l + 1]| == bits * k && k <= |maps[l]|
    ensures Nested(maps, l, bits)
  {
    DivModUnique(bits * k, bits, k, 0);
  }

  method CreateL2(bits: nat, n: nat) returns (maps: seq<seq<bool>>)
    requires bits > 1 && 0 < n <= bits * bits
    ensures SummedBut(maps, bits, 0, 0) && |maps| == 3 && Prefix(maps[2], n)
  {
    var mask2, k := FillBottom(bits, n);
    FewWords(bits, n, k, bits);
    var mask1 := FillSummary(k, bits);
    maps := [[], mask1, mask2];
    WholeWords(maps, bits, 1, k);
    forall i: nat ensures Sums(maps, 1, i, bits) { PrefixSums(maps, bits, 1, n, k, i); }
  }

  method CreateL3(bits: nat, n: nat) returns (maps: seq<seq<bool>>)
    requires bits > 1 && 0 < n <= bits * (bits * bits)
    ensures SummedBut(maps, bits, 0, 0) && |maps| == 4 && Prefix(maps[3], n)
  {
    var mask3, k := FillBottom(bits, n);
    FewWords(bits, n, k, bits * bits);
    var mask2 := FillSummary(k, bits * bits);
    ghost var h := k / bits + if k % bits == 0 then 0 else 1;
    WordsNeeded(bits, k);
    var mask1 := FillTop(bits, k, h);
    maps := [[], mask1, mask2, mask3];
    WholeWords(maps, bits, 1, bits);
    WholeWords(maps, bits, 2, k);
    forall l: nat, i: nat | 1 <= l < 3 ensures Sums(maps, l, i, bits) {
      if l == 1 { PrefixSums(maps, bits, 1, k, h, i); } else { PrefixSums(maps, bits, 2, n, k, i); }
    }
  }

  /** The top word of three levels: bit `i / bits` for each of `k` words. */
  method FillTop(bits: nat, k: nat, ghost h: nat) returns (s: seq<bool>)
    requires bits > 1 && k <= bits * bits && WordsFor(bits, k, h)
    ensures |s| == bits && Prefix(s, h)
  {
    s := seq(bits, _ => false);
    var i := 0;
    ghost var done := 0;
    assert bits * 0 == 0;
    while i < k
      invariant 0 <= i <= k && |s| == bits && done <= bits && Prefix(s, done) && WordsFor(bits, i, done)
    {
      NextWord(bits, i, done);
      FewWords(bits, i + 1, if i == bits * done then done + 1 else done, bits);
      s := s[i / bits := true];
      done := if i == bits * done then done + 1 else done;
      i := i + 1;
    }
    FewWords(bits, k, done, h);
    FewWords(bits, k, h, done);
  }

  // ---------------------------------------------------------------- the code

  class IdObject {
    /** The word size, and the size of the counter's type. */
    const bits: nat
    const modulus: nat

    const base: nat
    const range: nat
    var maps: seq<seq<bool>>
    var allocCount: nat

    // How many free identifiers were handed out, and how many were given back.
    ghost var taken: nat
    ghost var freed: nat

    /** One level of bits for up to one word, two for up to a word of words, else three.  A range of
        exactly one word would shift by the word size and is left to the caller to avoid. */
    constructor (bits: nat, modulus: nat, first: nat, last: nat)
      requires bits > 1 && first <= last && last - first + 1 < modulus && last - first + 1 != bits
      requires last - first + 1 <= bits * (bits * bits)
      ensures Valid() && this.bits == bits && this.modulus == modulus && base == first && range == last - first + 1
      ensures taken == 0 && freed == 0 && Levels() == if range <= bits then 1 else if range <= bits * bits then 2 else 3
      ensures forall i: nat :: Free(i) <==> i < range
    {
      var n := last - first + 1;
      var maps: seq<seq<bool>>;
      if n <= bits {
        maps := [[], Mask(bits, n)];
      } else if n <= bits * bits {
        maps := CreateL2(bits, n);
      } else {
        maps := CreateL3(bits, n);
      }
      this.bits, this.modulus, this.base, this.range := bits, modulus, first, n;
      this.maps, this.allocCount := maps, 0;
      taken, freed := 0, 0;
      new;
      assert forall i: nat :: Free(i) <==> i < range;
      UpToCard(FreeIds(), range);
    }

    function Levels(): int
      reads this`maps
    {
      |maps| - 1
    }

    ghost predicate Free(i: nat)
      reads this`maps
    {
      |maps| > 1 && Bit(maps, |maps| - 1, i)
    }

    ghost function FreeIds(): set<nat>
      reads this`maps
    {
      set i: nat | i < range && Free(i)
    }

    /** The number of identifiers that are out. */
    ghost function Out(): int
      reads this
    {
      taken - freed
    }

    /** The summaries are right and only identifiers of the range are free, all but those that are
        out.  The counter only ever goes down: it is minus the number of frees, in its width. */
    ghost predicate Valid()
      reads this
    {
      && Shaped() && 0 < range < modulus
      && |FreeIds()| == range - Out()
      && allocCount < modulus && (allocCount + freed) % modulus == 0
    }

    /** `ctz` of word `w`: its least set bit, or the word size if there is none. */
    method CountTrailingZeros(level: nat, w: nat) returns (pos: nat)
      requires bits > 0 && level < |maps| && bits * w + bits <= |maps[level]|
      ensures pos <= bits && NoneBefore(maps, level, w, bits, bits * w + pos)
      ensures pos < bits ==> Bit(maps, level, bits * w + pos)
      ensures pos == bits <==> !WordUsed(maps, level, w, bits)
    {
      WordStarts(maps, level, w, bits);
      pos := 0;
      while pos < bits && !maps[level][bits * w + pos]
        invariant pos <= bits && NoneBefore(maps, level, w, bits, bits * w + pos)
      {
        assert !Bit(maps, level, bits * w + pos);
        pos := pos + 1;
      }
      if pos == bits {
        WordEnds(maps, level, w, bits);
      } else {
        InWord(bits, w, pos);
        assert Bit(maps, level, bits * w + pos);
      }
    }

    /** Where the walk down stands: at the least set bit of the level, or, when no bit is set, past
        the end of the level. */
    ghost predicate At(level: nat, idx: nat)
      reads this`maps
    {
      && 1 <= level < |maps|
      && if exists j: nat :: Free(j) then IsLeast(maps, level, idx) else idx >= |maps[level]|
    }

    /** The step of the walk inside a level. */
    lemma StepInside(level: nat, idx: nat, pos: nat)
      requires Valid() && level < |maps| && (if level == 1 then idx == 0 else level > 1 && At(level - 1, idx))
      requires bits * idx + bits <= |maps[level]| && pos <= bits && NoneBefore(maps, level, idx, bits, bits * idx + pos)
      requires pos < bits ==> Bit(maps, level, bits * idx + pos)
      requires pos == bits <==> !WordUsed(maps, level, idx, bits)
      ensures level > 0 && At(level, bits * idx + pos)
    {
      assert level == 1 ==> bits * idx == 0;
      if level > 1 {
        PastEnd(level, idx);
        assert Sums(maps, level - 1, idx, bits);
      }
      if pos < bits {
        var i := SomeBitBelow(maps, bits, level, bits * idx + pos);
        assert Free(i);
      }
      if f: nat :| Free(f) {
        SomeBitAbove(maps, bits, |maps| - 1, f);
        InWord(bits, idx, pos);
        if level > 1 {
          LeastBelow(maps, bits, level - 1, idx, bits * idx + pos);
        } else {
          TopIsOneWord(maps, bits, bits * idx + pos);
        }
      }
    }

    /** Below a place past the end there is no word. */
    lemma PastEnd(level: nat, idx: nat)
      requires Valid() && 1 < level < |maps|
      ensures idx >= |maps[level - 1]| ==> bits * idx >= |maps[level]|
      ensures IsLeast(maps, level - 1, idx) ==> bits * idx + bits <= |maps[level]|
    {
      assert Nested(maps, level - 1, bits);
      assert |maps[level]| == bits * (|maps[level]| / bits);
      if idx >= |maps[level - 1]| { MulLe(bits, |maps[level]| / bits, idx); }
      if IsLeast(maps, level - 1, idx) {
        assert Sums(maps, level - 1, idx, bits);
        WordThere(maps, bits, level - 1, idx);
      }
    }

    /** Goes down to the least free identifier.  When there is none, the walk leaves the bitmaps:
        `stray` holds the trailing zeros of whatever words it reads outside of them. */
    method FindLeast(stray: seq<nat>) returns (idx: nat)
      requires Valid() && |stray| == |maps|
      ensures At(|maps| - 1, idx)
      ensures |maps| == 2 && !(exists j: nat :: Free(j)) ==> idx == bits
    {
      var level := 1;
      idx := 0;
      while level <= Levels()
        invariant 1 <= level <= |maps| && (if level == 1 then idx == 0 else At(level - 1, idx))
        invariant |maps| == 2 && level == 2 && !(exists j: nat :: Free(j)) ==> idx == bits
      {
        idx := FindBelow(level, idx, stray[level]);
        level := level + 1;
      }
    }

    /** One level of the walk, into word `idx`. */
    method FindBelow(level: nat, idx: nat, stray: nat) returns (idx': nat)
      requires Valid() && 1 <= level < |maps| && (if level == 1 then idx == 0 else At(level - 1, idx))
      ensures At(level, idx') && (level == 1 && !(exists j: nat :: Free(j)) ==> idx' == bits)
    {
      assert level == 1 ==> bits * idx == 0;
      var pos;
      if bits * idx + bits <= |maps[level]| {
        pos := CountTrailingZeros(level, idx);
        StepInside(level, idx, pos);
      } else {
        pos := stray;
        PastEnd(level, idx);
      }
      idx' := bits * idx + pos;
    }

    /** The answer `id` is right: -1 exactly when no identifier is free, else a free one. */
    ghost predicate Right(id: int)
      reads this`maps
    {
      if exists j: nat :: Free(j) then id >= base && Free(id - base) else id == -1
    }

    /** The least free identifier, which is free no more; -1 if the counter says all are taken.  The
        answer is right if and only if the counter, which goes by the frees, agrees with what is out. */
    method IdAlloc(stray: seq<nat>) returns (id: int)
      requires Valid() && |stray| == |maps|
      modifies this`maps, this`taken
      ensures Valid() && (id == -1 <==> old(allocCount) == range)
      ensures old(Right(id)) <==> (old(Out()) == range <==> (freed + range) % modulus == 0)
      ensures !old(Right(id)) || id == -1 ==> maps == old(maps) && taken == old(taken)
      ensures !old(Right(id)) && id != -1 ==> id >= base + range && (Levels() == 1 ==> id == base + bits)
      ensures old(Right(id)) && id != -1 ==> taken == old(taken) + 1 && base <= id < base + range && Levels() == old(Levels())
      ensures old(Right(id)) && id != -1 ==> forall j: nat :: old(Free(j)) ==> id - base <= j
      ensures old(Right(id)) && id != -1 ==> forall j: nat :: Free(j) <==> old(Free(j)) && j != id - base
    {
      CounterSays();
      if allocCount == range {
        return -1;
      }
      var idx := FindLeast(stray);
      if idx < |maps[Levels()]| {
        TakeFree(idx);
        taken := taken + 1;
      }
      // Otherwise the bits to clear are outside the bitmaps or zero already.
      return base + idx;
    }

    /** The counter is at the range exactly when the frees are minus the range, and no identifier is
        free exactly when the whole range is out. */
    lemma CounterSays()
      requires Valid()
      ensures allocCount == range <==> (freed + range) % modulus == 0
      ensures Out() == range <==> !exists j: nat :: Free(j)
    {
      SameResidue(allocCount, range, freed, modulus);
      if j: nat :| Free(j) {
        assert j in FreeIds();
      } else {
        assert FreeIds() == {};
      }
    }

    /** Before the frees have filled the counter's width, the answer is right until all are out. */
    lemma RightUntilExhausted()
      requires Valid() && freed + range < modulus
      ensures (Out() == range <==> (freed + range) % modulus == 0) <==> Out() < range
    {
      DivModUnique(freed + range, modulus, 0, freed + range);
    }

    ghost predicate Shaped()
      reads this`maps
    {
      SummedBut(maps, bits, 0, 0) && range <= |maps[|maps| - 1]| && forall i: nat {:trigger Free(i)} :: Free(i) ==> i < range
    }

    method TakeFree(idx: nat)
      requires Shaped() && Free(idx)
      modifies this`maps
      ensures Shaped() && |maps| == |old(maps)| && |FreeIds()| == |old(FreeIds())| - 1
      ensures forall j: nat {:trigger Free(j)} :: Free(j) <==> old(Free(j)) && j != idx
    {
      TakeBit(idx);
      forall j: nat ensures Free(j) <==> old(Free(j)) && j != idx { }
      assert idx in old(FreeIds()) && FreeIds() == old(FreeIds()) - {idx};
    }

    method GiveFree(idx: nat)
      requires Shaped() && idx < range && !Free(idx)
      modifies this`maps
      ensures Shaped() && |maps| == |old(maps)| && |FreeIds()| == |old(FreeIds())| + 1
      ensures forall j: nat {:trigger Free(j)} :: Free(j) <==> old(Free(j)) || j == idx
    {
      PutBack(idx);
      forall j: nat ensures Free(j) <==> old(Free(j)) || j == idx { assert Free(j) <==> Bit(maps, |maps| - 1, j); }
      assert idx !in old(FreeIds()) && FreeIds() == old(FreeIds()) + {idx};
    }

    /** Clears the bit of an identifier, and the summary bits above it as far as words become zero. */
    method TakeBit(idx: nat)
      requires Shaped() && Free(idx)
      modifies this`maps
      ensures SummedBut(maps, bits, 0, 0) && |maps| == |old(maps)| && maps[|maps| - 1] == old(maps)[|maps| - 1][idx := false]
    {
      var level: nat, clear: nat := Levels(), idx;
      Weaken(maps, bits, level, idx);
      ClearBit(level, clear);
      ghost var bottom := maps[level];
      while level > 1
        invariant 1 <= level < |maps| == |old(maps)| && Cleared(level, clear) && maps[|maps| - 1] == bottom
        decreases level
      {
        var zero := WordIsZero(level, clear / bits, clear);
        if !zero {
          break;
        }
        level, clear := level - 1, clear / bits;
        ClearBit(level, clear);
      }
      SettleUp(level, clear);
    }

    /** The climb ends at the top, or below a bit that is rightly set. */
    lemma SettleUp(level: nat, clear: nat)
      requires Cleared(level, clear) && (level == 1 || WordUsed(maps, level, clear / bits, bits))
      ensures SummedBut(maps, bits, 0, 0)
    {
      AllRight(maps, bits, level - 1, clear / bits);
    }

    /** Bit `clear` is zero, the bits below it and beside it are summed up right, and the bit above
        it is still set. */
    ghost predicate Cleared(level: nat, clear: nat)
      reads this`maps
    {
      && bits > 0 && 1 <= level < |maps| && clear < |maps[level]| && SummedBut(maps, bits, level - 1, clear / bits)
      && (level > 1 ==> Bit(maps, level - 1, clear / bits))
    }

    method ClearBit(level: nat, clear: nat)
      requires 1 <= level < |maps| && SummedBut(maps, bits, level, clear) && Bit(maps, level, clear)
      requires level < |maps| - 1 ==> !WordUsed(maps, level + 1, clear, bits)
      modifies this`maps
      ensures Cleared(level, clear) && maps == Put(old(maps), level, clear, false)
    {
      if level > 1 { ParentSetBut(maps, bits, level, clear); }
      PutKeeps(maps, bits, level, clear, false);
      maps := maps[level := maps[level][clear := false]];
    }

    method WordIsZero(level: nat, w: nat, ghost j: nat) returns (zero: bool)
      requires Sized(maps, bits) && 1 < level < |maps| && j < |maps[level]| && w == j / bits
      ensures zero <==> !WordUsed(maps, level, w, bits)
    {
      assert Nested(maps, level - 1, bits);
      WordBelow(bits, |maps[level]|, j);
      WholeWord(bits, |maps[level]|, w);
      WordStarts(maps, level, w, bits);
      var pos := 0;
      while pos < bits
        invariant 0 <= pos <= bits && NoneBefore(maps, level, w, bits, bits * w + pos)
      {
        if maps[level][bits * w + pos] {
          InWord(bits, w, pos);
          assert Bit(maps, level, bits * w + pos);
          return false;
        }
        assert !Bit(maps, level, bits * w + pos);
        pos := pos + 1;
      }
      WordEnds(maps, level, w, bits);
      return true;
    }

    /** Gives an identifier back. */
    method IdFree(id: nat)
      requires Valid() && base <= id < base + range && !Free(id - base)
      modifies this
      ensures Valid() && forall j: nat :: Free(j) <==> old(Free(j)) || j == id - base
      ensures allocCount == (old(allocCount) + modulus - 1) % modulus && freed == old(freed) + 1 && taken == old(taken)
    {
      GiveFree(id - base);
      OneLess(allocCount, freed, modulus);
      allocCount := (allocCount + modulus - 1) % modulus;
      freed := freed + 1;
    }

    /** Sets the bit of an identifier and all summary bits above it. */
    method PutBack(i: nat)
      requires Shaped() && i < range
      modifies this`maps
      ensures SummedBut(maps, bits, 0, 0) && |maps| == |old(maps)| && maps[|maps| - 1] == old(maps)[|maps| - 1][i := true]
    {
      var idx: nat, level: nat := i, Levels();
      Weaken(maps, bits, level, idx);
      SetBit(level, idx);
      ghost var bottom := maps[level];
      while level > 1
        invariant 1 <= level < |maps| == |old(maps)| && WasSet(level, idx) && maps[|maps| - 1] == bottom
        decreases level
      {
        assert Bit(maps, level, idx);
        BitAbove(maps, bits, level, idx);
        level, idx := level - 1, idx / bits;
        SetBit(level, idx);
      }
      AllRight(maps, bits, 0, idx / bits);
    }

    /** Bit `i` is set, and only the bit above it may be wrong. */
    ghost predicate WasSet(level: nat, i: nat)
      reads this`maps
    {
      bits > 0 && 1 <= level < |maps| && Bit(maps, level, i) && SummedBut(maps, bits, level - 1, i / bits)
    }

    method SetBit(level: nat, i: nat)
      requires 1 <= level < |maps| && i < |maps[level]| && SummedBut(maps, bits, level, i)
      requires level < |maps| - 1 ==> WordUsed(maps, level + 1, i, bits)
      modifies this`maps
      ensures WasSet(level, i) && maps == Put(old(maps), level, i, true)
    {
      PutKeeps(maps, bits, level, i, true);
      maps := maps[level := maps[level][i := true]];
    }
  }

  /** Every identifier of a fresh object is handed out in turn, and then one that is not in the range. */
  method ExhaustOneLevel(bits: nat, modulus: nat, first: nat, n: nat) returns (obj: IdObject, id: int)
    requires 0 < n < bits && bits < modulus && n <= bits * (bits * bits)
    ensures obj.Valid() && obj.base == first && obj.range == n && obj.Out() == n
    ensures id == first + bits && id >= first + n
  {
    obj := new IdObject(bits, modulus, first, first + n - 1);
    var k := 0;
    while k < n
      invariant 0 <= k <= n && fresh(obj) && obj.Valid() && obj.taken == k && obj.freed == 0 && obj.Levels() == 1
      invariant obj.base == first && obj.range == n && obj.bits == bits && obj.modulus == modulus
    {
      obj.RightUntilExhausted();
      id := obj.IdAlloc([0, 0]);
      k := k + 1;
    }
    obj.RightUntilExhausted();
    id := obj.IdAlloc([0, 0]);
  }

  lemma {:induction false} UpToCard(s: set<nat>, n: nat)
    requires forall i: nat :: i in s <==> i < n
    ensures |s| == n
  {
    if n == 0 {
      assert s == {};
    } else {
      UpToCard(s - {n - 1}, n - 1);
    }
  }

  lemma SameResidue(a: nat, r: nat, f: nat, m: nat)
    requires a < m && r < m && (a + f) % m == 0
    ensures a == r <==> (f + r) % m == 0
  {
    var x := (a + f) / m;
    assert a + f == m * x;
    if r >= a {
      DivModUnique(f + r, m, x, r - a);
    } else {
      assert x == 0 ==> m * x == 0;
      assert m * (x - 1) == m * x - m;
      DivModUnique(f + r, m, x - 1, m + r - a);
    }
  }

  lemma OneLess(a: nat, f: nat, m: nat)
    requires 0 < m && a < m && (a + f) % m == 0
    ensures ((a + m - 1) % m + (f + 1)) % m == 0
  {
    var x := (a + f) / m;
    assert a + f == m * x;
    if a == 0 {
      DivModUnique(a + m - 1, m, 0, m - 1);
      assert m * (x + 1) == m * x + m;
      DivModUnique(m + f, m, x + 1, 0);
    } else {
      assert m * 1 == m;
      DivModUnique(a + m - 1, m, 1, a - 1);
    }
  }

  /** Below a set bit there are set bits all the way down. */
  lemma {:induction false} SomeBitBelow(maps: seq<seq<bool>>, bits: nat, l: nat, j: nat) returns (i: nat)
    requires SummedBut(maps, bits, 0, 0) && 1 <= l < |maps| && Bit(maps, l, j)
    ensures Bit(maps, |maps| - 1, i)
    decreases |maps| - l
  {
    i := j;
    if l < |maps| - 1 {
      assert Sums(maps, l, j, bits);
      i :| Bit(maps, l + 1, i) && i / bits == j;
      i := SomeBitBelow(maps, bits, l + 1, i);
    }
  }

  /** All set bits of word `w` are at `n` or after it. */
  ghost predicate NoneBefore(maps: seq<seq<bool>>, l: nat, w: nat, bits: nat, n: nat)
    requires bits > 0
  {
    forall j: nat {:trigger Bit(maps, l, j)} :: Bit(maps, l, j) && j / bits == w ==> n <= j
  }

  lemma WordStarts(maps: seq<seq<bool>>, l: nat, w: nat, bits: nat)
    requires bits > 0
    ensures NoneBefore(maps, l, w, bits, bits * w)
  {
    forall j: nat | Bit(maps, l, j) && j / bits == w ensures bits * w <= j { assert j == bits * (j / bits) + j % bits; }
  }

  lemma WordEnds(maps: seq<seq<bool>>, l: nat, w: nat, bits: nat)
    requires bits > 0 && NoneBefore(maps, l, w, bits, bits * w + bits)
    ensures !WordUsed(maps, l, w, bits)
  {
    forall j: nat | Bit(maps, l, j) ensures j / bits != w { assert j == bits * (j / bits) + j % bits; }
  }

  lemma TopIsOneWord(maps: seq<seq<bool>>, bits: nat, c: nat)
    requires Sized(maps, bits) && Bit(maps, 1, c)
    requires forall j: nat {:trigger Bit(maps, 1, j)} :: Bit(maps, 1, j) && j / bits == 0 ==> c <= j
    ensures IsLeast(maps, 1, c)
  {
    forall j: nat | Bit(maps, 1, j) ensures c <= j { DivModUnique(j, bits, 0, j); }
  }

  lemma ParentSetBut(maps: seq<seq<bool>>, bits: nat, l: nat, i: nat)
    requires SummedBut(maps, bits, l, i) && 1 < l < |maps| && Bit(maps, l, i)
    ensures Bit(maps, l - 1, i / bits)
  {
    assert WordUsed(maps, (l - 1) + 1, i / bits, bits);
    assert Sums(maps, l - 1, i / bits, bits);
  }
}
