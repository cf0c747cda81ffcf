/** Messages between threads: a header, up to fifteen parameters, and a data area from which
    parameters may reserve windows of whole words. */
module Message {
  import opened Common
  import opened Pow2
  import Bits

  const MAX_MSG_SIZE: nat := 2048

  const MAX_MSG_PARAMS: nat := 15

  // ---------------------------------------------------------------- parameters

  /** What was appended: a number, or bytes in a window of the data area. */
  datatype Item = Number(value: nat) | Window(start: nat, words: nat, bytes: seq<int>)

  /** A window parameter: its first word and its length. */
  function Encode(start: nat, words: nat): nat { start * 0x1_0000 + words }

  lemma Decode(start: nat, words: nat)
    requires words < 0x1_0000
    ensures Encode(start, words) / 0x1_0000 == start && Encode(start, words) % 0x1_0000 == words
  {
  }

  /** An int as the unsigned word of `width` values that carries it, and back. */
  function FromInt(v: int, width: nat): nat
    requires width > 0
  {
    v % width
  }

  /** Every int survives, whether words have 32 or 64 bits. */
  lemma IntRoundTrip(v: int, width: nat)
    requires -0x8000_0000 <= v < 0x8000_0000 && (width == 0x1_0000_0000 || width == 0x1_0000_0000_0000_0000)
    ensures Bits.SignedLow32(FromInt(v, width)) == v
  {
  }

  /** The words that hold `size` bytes. */
  function WordsFor(size: nat, bytes: nat): (n: nat)
    requires bytes > 0
    ensures bytes * n >= size && bytes * n < size + bytes && (n == 0 <==> size == 0)
  {
    var n := size / bytes + if size % bytes == 0 then 0 else 1;
    assert size == bytes * (size / bytes) + size % bytes;
    assert bytes * (size / bytes + 1) == bytes * (size / bytes) + bytes;
    if n > 0 then MulLe(bytes, 1, n); n else n
  }

  // ---------------------------------------------------------------- what a message holds

  /** The header, the parameters and the data as values. */
  datatype Content = Content(wordBytes: nat, typeMap: seq<bool>, numParams: nat, numDataWords: nat, params: seq<nat>, data: seq<int>) {

    function DataWords(): int
      requires wordBytes > 0
    {
      MAX_MSG_SIZE / wordBytes - 3 - MAX_MSG_PARAMS
    }

    ghost predicate Sized() {
      && (wordBytes == 4 || wordBytes == 8) && |typeMap| == 16 && |params| == MAX_MSG_PARAMS
      && |data| == wordBytes * DataWords() && numParams <= MAX_MSG_PARAMS && numDataWords <= DataWords()
    }

    /** Parameter `i` is what was appended there. */
    ghost predicate Holds(items: seq<Item>, i: nat)
      requires i < |items| <= |params| && |items| <= |typeMap| && wordBytes > 0
    {
      match items[i]
      case Number(v) => !typeMap[i] && params[i] == v
      case Window(start, words, b) =>
        && typeMap[i] && params[i] == Encode(start, words) && words < 0x1_0000 && start + words <= numDataWords
        && |b| <= wordBytes * words && wordBytes * start + |b| <= |data| && data[wordBytes * start..wordBytes * start + |b|] == b
    }

    /** Windows follow one another. */
    ghost predicate Ordered(items: seq<Item>, i: nat, j: nat)
      requires i < j < |items|
    {
      items[i].Window? && items[j].Window? && items[i].words > 0 && items[j].words > 0 ==>
        items[i].start + items[i].words <= items[j].start
    }

    ghost predicate Carries(items: seq<Item>) {
      && Sized() && numParams == |items|
      && (forall i: nat {:trigger Holds(items, i)} :: i < |items| ==> Holds(items, i))
      && (forall i: nat, j: nat {:trigger Ordered(items, i, j)} :: i < j < |items| ==> Ordered(items, i, j))
      && (forall i: nat {:trigger Unset(i)} :: |items| <= i < 16 ==> Unset(i))
    }

    ghost predicate Unset(i: nat)
      requires i < |typeMap|
    {
      !typeMap[i]
    }
  }

  /** Two windows share no byte. */
  lemma WindowsDisjoint(c: Content, items: seq<Item>, i: nat, j: nat, a: nat)
    requires c.Carries(items) && i < j < |items| && items[i].Window? && items[j].Window?
    requires c.wordBytes * items[i].start <= a < c.wordBytes * items[i].start + c.wordBytes * items[i].words
    ensures !(c.wordBytes * items[j].start <= a < c.wordBytes * items[j].start + c.wordBytes * items[j].words)
  {
    assert c.Ordered(items, i, j);
    var w := c.wordBytes;
    if items[i].words > 0 && items[j].words > 0 {
      MulLe(w, items[i].start + items[i].words, items[j].start);
      assert w * (items[i].start + items[i].words) == w * items[i].start + w * items[i].words;
    } else {
      assert w * 0 == 0;
    }
  }

  // ---------------------------------------------------------------- appending and copying

  ghost function WithNumber(c: Content, v: nat): Content
    requires c.Sized() && c.numParams < MAX_MSG_PARAMS
  {
    c.(params := c.params[c.numParams := v], numParams := c.numParams + 1)
  }

  ghost function Overwritten(s: seq<int>, at: nat, b: seq<int>): seq<int>
    requires at + |b| <= |s|
  {
    s[..at] + b + s[at + |b|..]
  }

  /** A window of `n` words, the first of whose bytes are `b`. */
  ghost function WithWindow(c: Content, n: nat, b: seq<int>): Content
    requires c.Sized() && c.numParams < MAX_MSG_PARAMS && c.wordBytes * c.numDataWords + |b| <= |c.data|
  {
    c.(params := c.params[c.numParams := Encode(c.numDataWords, n)], typeMap := c.typeMap[c.numParams := true],
       numDataWords := c.numDataWords + n, numParams := c.numParams + 1,
       data := Overwritten(c.data, c.wordBytes * c.numDataWords, b))
  }

  lemma NumberAppended(c: Content, items: seq<Item>, v: nat)
    requires c.Carries(items) && c.numParams < MAX_MSG_PARAMS
    ensures WithNumber(c, v).Carries(items + [Number(v)])
  {
    var d, after := WithNumber(c, v), items + [Number(v)];
    forall i: nat | i < |after| ensures d.Holds(after, i) {
      if i < |items| { assert c.Holds(items, i); } else { assert c.Unset(i); }
    }
    forall i: nat, j: nat | i < j < |after| ensures d.Ordered(after, i, j) { if j < |items| { assert c.Ordered(items, i, j); } }
    forall i: nat | |after| <= i < 16 ensures d.Unset(i) { assert c.Unset(i); }
  }

  /** Earlier windows end before the new one begins. */
  lemma WindowKept(c: Content, items: seq<Item>, n: nat, b: seq<int>, i: nat)
    requires c.Carries(items) && c.numParams < MAX_MSG_PARAMS && i < |items| && items[i].Window?
    requires c.wordBytes * c.numDataWords + |b| <= |c.data|
    ensures WithWindow(c, n, b).Holds(items + [Window(c.numDataWords, n, b)], i)
  {
    assert c.Holds(items, i);
    var x, w := items[i], c.wordBytes;
    MulLe(w, x.start + x.words, c.numDataWords);
    assert w * (x.start + x.words) == w * x.start + w * x.words;
    var lo, hi := w * x.start, w * x.start + |x.bytes|;
    assert WithWindow(c, n, b).data[lo..hi] == c.data[lo..hi];
  }

  lemma WindowAppended(c: Content, items: seq<Item>, n: nat, b: seq<int>)
    requires c.Carries(items) && c.numParams < MAX_MSG_PARAMS && c.numDataWords + n <= c.DataWords()
    requires |b| <= c.wordBytes * n && c.wordBytes * c.numDataWords + |b| <= |c.data|
    ensures WithWindow(c, n, b).Carries(items + [Window(c.numDataWords, n, b)])
  {
    var d, after := WithWindow(c, n, b), items + [Window(c.numDataWords, n, b)];
    forall i: nat | i < |after| ensures d.Holds(after, i) {
      if i < |items| {
        assert c.Holds(items, i);
        if items[i].Window? { WindowKept(c, items, n, b, i); }
      }
    }
    forall i: nat, j: nat | i < j < |after| ensures d.Ordered(after, i, j) {
      if j < |items| { assert c.Ordered(items, i, j); } else { assert c.Holds(items, i); }
    }
    forall i: nat | |after| <= i < 16 ensures d.Unset(i) { assert c.Unset(i); }
  }

  /** `copy_msg`: the header, the parameters in use, and the words in use. */
  ghost function CopiedTo(c: Content, d: Content): Content
    requires c.Sized() && d.Sized() && d.wordBytes == c.wordBytes && c.wordBytes * c.numDataWords <= |c.data|
  {
    var n, m := c.numParams, c.wordBytes * c.numDataWords;
    Content(c.wordBytes, c.typeMap, n, c.numDataWords, c.params[..n] + d.params[n..], c.data[..m] + d.data[m..])
  }

  lemma CopyFits(c: Content)
    requires c.Sized()
    ensures c.wordBytes * c.numDataWords <= |c.data|
  {
    MulLe(c.wordBytes, c.numDataWords, c.DataWords());
  }

  lemma CopyCarries(c: Content, d: Content, items: seq<Item>)
    requires c.Carries(items) && d.Sized() && d.wordBytes == c.wordBytes && c.wordBytes * c.numDataWords <= |c.data|
    ensures CopiedTo(c, d).Carries(items)
  {
    var e, w := CopiedTo(c, d), c.wordBytes;
    forall i: nat | i < |items| ensures e.Holds(items, i) {
      assert c.Holds(items, i);
      if items[i].Window? { CopyKeeps(c, d, items, i); }
    }
    forall i: nat, j: nat | i < j < |items| ensures e.Ordered(items, i, j) { assert c.Ordered(items, i, j); }
    forall i: nat | |items| <= i < 16 ensures e.Unset(i) { assert c.Unset(i); }
  }

  lemma CopyKeeps(c: Content, d: Content, items: seq<Item>, i: nat)
    requires c.Sized() && d.Sized() && d.wordBytes == c.wordBytes && c.wordBytes * c.numDataWords <= |c.data|
    requires i < |items| == c.numParams && c.Holds(items, i) && items[i].Window?
    ensures CopiedTo(c, d).Holds(items, i)
  {
    var x, w, m := items[i], c.wordBytes, c.wordBytes * c.numDataWords;
    WindowFits(w, x.start, x.words, c.numDataWords);
    SliceOfFront(c.data, d.data, m, w * x.start, w * x.start + |x.bytes|);
    assert CopiedTo(c, d).data == c.data[..m] + d.data[m..];
  }

  lemma WindowFits(w: nat, start: nat, words: nat, n: nat)
    requires start + words <= n
    ensures w * start + w * words <= w * n
  {
    MulLe(w, start + words, n);
    assert w * (start + words) == w * start + w * words;
  }

  lemma SliceOfFront(a: seq<int>, b: seq<int>, m: nat, lo: nat, hi: nat)
    requires lo <= hi <= m <= |a| && m <= |b|
    ensures (a[..m] + b[m..])[lo..hi] == a[lo..hi]
  {
  }

  // ---------------------------------------------------------------- the code

  function StrLen(s: seq<int>): (n: nat)
    requires 0 in s
    ensures n < |s| && s[n] == 0 && 0 !in s[..n]
  {
    if s[0] == 0 then 0 else 1 + StrLen(s[1..])
  }

  /** The bytes that a text takes with its final zero, 0 for no text at all. */
  function Room(text: Option<seq<int>>, size0: nat): nat
    requires text.Some? ==> 0 in text.value
  {
    if size0 > 0 then size0 + 1 else if text.Some? then StrLen(text.value) + 1 else 0
  }

  /** The bytes read as a text are `text` up to its first zero or its first `size0` characters. */
  ghost predicate Spells(b: seq<int>, text: Option<seq<int>>, size0: nat)
    requires text.Some? ==> 0 in text.value
  {
    match text
    case None => b == []
    case Some(t) =>
      && |b| == Room(text, size0) && b[|b| - 1] == 0
      && var n := if 0 < size0 < StrLen(t) then size0 else StrLen(t); n < |b| && b[..n] == t[..n] && b[n] == 0
  }

  class Msg {
    const wordBytes: nat
    var typeMap: seq<bool>
    var numParams: nat
    var numDataWords: nat
    const params: array<nat>
    const data: array<int>

    ghost var items: seq<Item>

    ghost function C(): Content
      reads this, params, data
    {
      Content(wordBytes, typeMap, numParams, numDataWords, params[..], data[..])
    }

    ghost predicate Valid()
      reads this, params, data
    {
      C().Carries(items)
    }

    /** An empty message, whatever its areas hold. */
    constructor (wordBytes: nat)
      requires wordBytes == 4 || wordBytes == 8
      ensures Valid() && items == [] && numParams == 0 && numDataWords == 0 && this.wordBytes == wordBytes && fresh(params) && fresh(data)
    {
      this.wordBytes := wordBytes;
      typeMap, numParams, numDataWords := seq(16, _ => false), 0, 0;
      params := new nat[MAX_MSG_PARAMS];
      data := new int[wordBytes * (MAX_MSG_SIZE / wordBytes - 3 - MAX_MSG_PARAMS)];
      items := [];
    }

    method AppendParam(v: nat)
      requires Valid() && numParams < MAX_MSG_PARAMS
      modifies this, params
      ensures Valid() && items == old(items) + [Number(v)]
    {
      NumberAppended(C(), items, v);
      params[numParams] := v;
      numParams := numParams + 1;
      items := items + [Number(v)];
      assert C() == WithNumber(old(C()), v);
    }

    /** `width` is the number of values of a word. */
    method AppendInt(v: int, width: nat)
      requires Valid() && numParams < MAX_MSG_PARAMS && width > 0
      modifies this, params
      ensures Valid() && items == old(items) + [Number(FromInt(v, width))]
    {
      AppendParam(FromInt(v, width));
    }

    /** Reserves `n` words and writes `b` at their start. */
    method Reserve(n: nat, b: seq<int>)
      requires Valid() && numParams < MAX_MSG_PARAMS && numDataWords + n <= C().DataWords() && |b| <= wordBytes * n
      modifies this, params, data
      ensures Valid() && items == old(items) + [Window(old(numDataWords), n, b)]
    {
      MulLe(wordBytes, numDataWords + n, C().DataWords());
      assert wordBytes * (numDataWords + n) == wordBytes * numDataWords + wordBytes * n;
      WindowAppended(C(), items, n, b);
      var at := wordBytes * numDataWords;
      forall k | 0 <= k < |b| { data[at + k] := b[k]; }
      assert data[..] == Overwritten(old(data[..]), at, b);
      params[numParams] := Encode(numDataWords, n);
      typeMap := typeMap[numParams := true];
      items := items + [Window(numDataWords, n, b)];
      numDataWords := numDataWords + n;
      numParams := numParams + 1;
      assert C() == WithWindow(old(C()), n, b);
    }

    /** `msg_try_append_data`: without bytes the window is only reserved. */
    method TryAppendData(b: Option<seq<int>>, size: nat) returns (ok: bool)
      requires Valid() && (b.Some? ==> |b.value| == size)
      modifies this, params, data
      ensures Valid()
      ensures ok <==> old(numParams) < MAX_MSG_PARAMS && old(numDataWords) + WordsFor(size, wordBytes) <= old(C()).DataWords()
      ensures !ok ==> C() == old(C()) && items == old(items)
      ensures ok ==> items == old(items) + [Window(old(numDataWords), WordsFor(size, wordBytes), if b.Some? then b.value else [])]
    {
      var n := WordsFor(size, wordBytes);
      if numParams >= MAX_MSG_PARAMS || numDataWords + n > MAX_MSG_SIZE / wordBytes - 3 - MAX_MSG_PARAMS {
        return false;
      }
      Reserve(n, if b.Some? then b.value else []);
      return true;
    }

    /** `msg_append_str` of the memory from a text on, or of none.  The window holds the text up to its
        first zero or up to `size0` characters, ended by a zero; without a text it is only reserved. */
    method AppendStr(text: Option<seq<int>>, size0: nat)
      requires Valid() && numParams < MAX_MSG_PARAMS && (text.Some? ==> 0 in text.value)
      requires Room(text, size0) == 0 || numDataWords + WordsFor(Room(text, size0), wordBytes) <= C().DataWords()
      modifies this, params, data
      ensures Valid() && |items| == |old(items)| + 1 && items[..|old(items)|] == old(items)
      ensures var w := items[|old(items)|];
        if Room(text, size0) == 0 then w == Window(0, 0, [])
        else w.Window? && w.start == old(numDataWords) && w.words == WordsFor(Room(text, size0), wordBytes) && Spells(w.bytes, text, size0)
    {
      if text.None? && size0 == 0 {
        AppendNothing();
        return;
      }
      var size := if size0 == 0 then StrLen(text.value) else size0;
      var n := WordsFor(size + 1, wordBytes);
      var b: seq<int> := [];
      if text.Some? {
        var at, len := wordBytes * numDataWords, StrLen(text.value);
        MulLe(wordBytes, numDataWords + n, C().DataWords());
        assert wordBytes * (numDataWords + n) == at + wordBytes * n;
        // A text that ends early leaves the bytes between its end and the last one as they were.
        b := if size <= len then text.value[..size] + [0] else text.value[..len + 1] + data[at + len + 1..at + size] + [0];
      }
      Reserve(n, b);
    }

    method AppendNothing()
      requires Valid() && numParams < MAX_MSG_PARAMS
      modifies this, params
      ensures Valid() && items == old(items) + [Window(0, 0, [])]
    {
      NothingAppended(C(), items);
      params[numParams] := 0;
      typeMap := typeMap[numParams := true];
      numParams := numParams + 1;
      items := items + [Window(0, 0, [])];
      assert C() == WithNothing(old(C()));
    }

    /** `msg_get_param`, which panics on an index or a type that is wrong. */
    method GetParam(idx: nat) returns (v: nat)
      requires Valid() && idx < numParams && !typeMap[idx]
      ensures items[idx] == Number(v)
    {
      assert C().Holds(items, idx);
      v := params[idx];
    }

    method GetInt(idx: nat) returns (v: int)
      requires Valid() && idx < numParams && !typeMap[idx]
      ensures items[idx].Number? && v == Bits.SignedLow32(items[idx].value)
    {
      var u := GetParam(idx);
      v := Bits.SignedLow32(u);
    }

    /** `msg_get_data`: the appended bytes, padded to whole words; nothing for an empty window. */
    method GetData(idx: nat) returns (r: Option<seq<int>>)
      requires Valid() && idx < numParams && typeMap[idx]
      ensures items[idx].Window? && (r.None? <==> items[idx].words == 0)
      ensures r.Some? ==> |r.value| == wordBytes * items[idx].words && items[idx].bytes <= r.value
    {
      assert C().Holds(items, idx);
      Decode(items[idx].start, items[idx].words);
      var start, words := params[idx] / 0x1_0000, params[idx] % 0x1_0000;
      if words == 0 {
        return None;
      }
      MulLe(wordBytes, start + words, C().DataWords());
      assert wordBytes * (start + words) == wordBytes * start + wordBytes * words;
      ghost var b := items[idx].bytes;
      r := Some(data[wordBytes * start..wordBytes * start + wordBytes * words]);
      assert r.value[..|b|] == data[wordBytes * start..wordBytes * start + |b|];
    }

    /** `msg_set_param`, which panics on an index or a type that is wrong. */
    method SetParam(idx: nat, v: nat)
      requires Valid() && idx < numParams && !typeMap[idx]
      modifies params, this`items
      ensures Valid() && items == old(items)[idx := Number(v)]
    {
      assert C().Holds(items, idx);
      NumberSet(C(), items, idx, v);
      params[idx] := v;
      items := items[idx := Number(v)];
      assert C() == old(C()).(params := old(C()).params[idx := v]);
    }

    /** `msg_copy_data`: as many bytes as the window and the buffer's size allow. */
    method CopyData(idx: nat, buf: array<int>, size: nat) returns (copied: nat)
      requires Valid() && idx < numParams && typeMap[idx] && size <= buf.Length && buf != data
      modifies buf
      ensures items[idx].Window? && copied == Least(size, wordBytes * items[idx].words)
      ensures var n := Least(copied, |items[idx].bytes|); buf[..n] == items[idx].bytes[..n]
      ensures buf[copied..] == old(buf[copied..])
    {
      var r := GetData(idx);
      if r.None? {
        assert wordBytes * 0 == 0;
        return 0;
      }
      copied := Least(size, |r.value|);
      var b := r.value;
      forall k | 0 <= k < copied { buf[k] := b[k]; }
    }
  }

  function Least(a: nat, b: nat): (n: nat)
    ensures n <= a && n <= b && (n == a || n == b)
  {
    if a < b then a else b
  }

  lemma NumberSet(c: Content, items: seq<Item>, idx: nat, v: nat)
    requires c.Carries(items) && idx < |items| && items[idx].Number?
    ensures c.(params := c.params[idx := v]).Carries(items[idx := Number(v)])
  {
    var d, after := c.(params := c.params[idx := v]), items[idx := Number(v)];
    assert c.Holds(items, idx);
    forall i: nat | i < |after| ensures d.Holds(after, i) { assert c.Holds(items, i); }
    forall i: nat, j: nat | i < j < |after| ensures d.Ordered(after, i, j) { assert c.Ordered(items, i, j); }
    forall i: nat | |after| <= i < 16 ensures d.Unset(i) { assert c.Unset(i); }
  }

  ghost function WithNothing(c: Content): Content
    requires c.Sized() && c.numParams < MAX_MSG_PARAMS
  {
    c.(params := c.params[c.numParams := 0], typeMap := c.typeMap[c.numParams := true], numParams := c.numParams + 1)
  }

  lemma NothingAppended(c: Content, items: seq<Item>)
    requires c.Carries(items) && c.numParams < MAX_MSG_PARAMS
    ensures WithNothing(c).Carries(items + [Window(0, 0, [])])
  {
    var d, after := WithNothing(c), items + [Window(0, 0, [])];
    assert c.wordBytes * 0 == 0;
    forall i: nat | i < |after| ensures d.Holds(after, i) { if i < |items| { assert c.Holds(items, i); } }
    forall i: nat, j: nat | i < j < |after| ensures d.Ordered(after, i, j) { if j < |items| { assert c.Ordered(items, i, j); } }
    forall i: nat | |after| <= i < 16 ensures d.Unset(i) { assert c.Unset(i); }
  }

  /** `copy_msg`: the receiver's message carries what the sender's did. */
  method CopyMsg(dst: Msg, src: Msg)
    requires src.Valid() && dst.C().Sized() && dst.wordBytes == src.wordBytes
    requires dst != src && dst.params != src.params && dst.data != src.data
    modifies dst, dst.params, dst.data
    ensures dst.Valid() && dst.items == src.items && src.Valid()
  {
    ghost var c, d := src.C(), dst.C();
    CopyFits(c);
    CopyCarries(c, d, src.items);
    dst.typeMap, dst.numParams, dst.numDataWords := src.typeMap, src.numParams, src.numDataWords;
    dst.items := src.items;
    CopyArray(dst.params, src.params, src.numParams);
    CopyArray(dst.data, src.data, src.wordBytes * src.numDataWords);
    assert dst.C() == CopiedTo(c, d);
    assert src.C() == c;
  }

  method CopyArray<T>(dst: array<T>, src: array<T>, n: nat)
    requires n <= src.Length == dst.Length && dst != src
    modifies dst
    ensures dst[..] == src[..n] + old(dst[..])[n..]
  {
    var i := 0;
    while i < n
      invariant 0 <= i <= n && forall k :: 0 <= k < dst.Length ==> dst[k] == if k < i then src[k] else old(dst[k])
    {
      dst[i] := src[i];
      i := i + 1;
    }
  }
}
