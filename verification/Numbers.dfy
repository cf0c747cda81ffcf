/** Division by shifting and subtracting, printing of numbers, and reading them back. */
module Numbers {
  import opened Common
  import opened Pow2
  import Bits

  // ---------------------------------------------------------------- division

  lemma {:induction false} ShlIsMul(b: nat, i: nat)
    ensures Bits.Shl(b, i) == b * Pow(i)
  {
    if i > 0 {
      ShlIsMul(b, i - 1);
      assert b * Pow(i) == 2 * (b * Pow(i - 1));
    }
  }

  /** `q | 1 << i`. */
  function OrBit(q: nat, i: nat): nat { if q / Pow(i) % 2 == 1 then q else q + Pow(i) }

  lemma OrBitAdds(m: nat, i: nat)
    ensures OrBit(Pow(i + 1) * m, i) == Pow(i + 1) * m + Pow(i) == Pow(i) * (2 * m + 1)
  {
    assert Pow(i + 1) * m == Pow(i) * (2 * m);
    DivModUnique(Pow(i + 1) * m, Pow(i), 2 * m, 0);
    assert Pow(i) * (2 * m + 1) == Pow(i) * (2 * m) + Pow(i);
  }

  /** The top bit of the shifted divisor is that of the word, so the dividend is below its double. */
  lemma ShiftedDivisor(a: nat, b: nat, w: nat, z: nat)
    requires a < Pow(w) && z < w && Pow(w - 1 - z) <= b
    ensures a < Bits.Shl(b, z + 1)
  {
    ShlIsMul(b, z + 1);
    Bits.PowAdd(z + 1, w - 1 - z);
    MulLe(Pow(z + 1), Pow(w - 1 - z), b);
    assert Pow(z + 1) * b == b * Pow(z + 1);
  }

  lemma HighBitsStayClear(a: nat, b: nat, one: nat, i: nat)
    requires b > 0 && a / b < Pow(one) && i >= one
    ensures a < Bits.Shl(b, i)
  {
    ShlIsMul(b, i);
    PowMonotone(one, i);
    BelowProduct(a, b, Pow(i));
  }

  lemma BelowProduct(a: nat, b: nat, p: nat)
    requires b > 0 && a / b < p
    ensures a < b * p
  {
    assert a == b * (a / b) + a % b;
    MulLe(b, a / b + 1, p);
    assert b * (a / b + 1) == b * (a / b) + b;
  }

  /** After the bits from `i` on: what they make of the dividend, and what is left. */
  ghost predicate Reduced(a: nat, b: nat, q: nat, r: nat, i: nat, m: nat) {
    r <= a && a == b * q + r && r < Bits.Shl(b, i) && q == Pow(i) * m
  }

  lemma BitTaken(a: nat, b: nat, q: nat, r: nat, i: nat, m: nat, q': nat)
    requires Reduced(a, b, q, r, i + 1, m) && Bits.Shl(b, i) <= r
    requires q' == q + Pow(i) == Pow(i) * (2 * m + 1)
    ensures Reduced(a, b, q', r - Bits.Shl(b, i), i, 2 * m + 1)
  {
    ShlIsMul(b, i);
    Distribute(b, q, Pow(i));
  }

  lemma Distribute(b: nat, q: nat, p: nat)
    ensures b * (q + p) == b * q + b * p
  {
  }

  lemma BitSkipped(a: nat, b: nat, q: nat, r: nat, i: nat, m: nat)
    requires Reduced(a, b, q, r, i + 1, m) && r < Bits.Shl(b, i)
    ensures Reduced(a, b, q, r, i, 2 * m)
  {
    assert Pow(i + 1) * m == Pow(i) * (2 * m);
  }

  lemma NothingTaken(a: nat, b: nat, i: nat)
    requires a < Bits.Shl(b, i)
    ensures Reduced(a, b, 0, a, i, 0)
  {
    assert b * 0 == 0 && Pow(i) * 0 == 0;
  }

  /** `div_u32` and `div_u64`.  The quotient bits are set with a one of `one` bits, 32 in both, so the
      64-bit form asks for a quotient below 2^32; C does not define the shift otherwise. */
  method Divide(a: nat, b: nat, w: nat, one: nat) returns (q: nat, r: nat)
    requires w > 0 && a < Pow(w) && 0 < b < Pow(w) && a / b < Pow(one)
    ensures q == a / b && r == a % b && a == b * q + r && r < b
  {
    var z := Bits.Clz(b, w);
    ShiftedDivisor(a, b, w, z);
    q, r := 0, a;
    ghost var m: nat := 0;
    NothingTaken(a, b, z + 1);
    var i := z + 1;
    while i > 0
      invariant 0 <= i <= z + 1 && Reduced(a, b, q, r, i, m)
    {
      i := i - 1;
      var t := Bits.Shl(b, i);
      if t <= r {
        if i >= one { HighBitsStayClear(a, b, one, i); }
        assert i < one;
        OrBitAdds(m, i);
        BitTaken(a, b, q, r, i, m, OrBit(q, i));
        q, r, m := OrBit(q, i), r - t, 2 * m + 1;
      } else {
        BitSkipped(a, b, q, r, i, m);
        m := 2 * m;
      }
    }
    DivModUnique(a, b, q, r);
  }

  // ---------------------------------------------------------------- multiplication

  /** Bit `i` of a number, and the number up to it. */
  function BitAt(b: nat, i: nat): nat { b / Pow(i) % 2 }

  lemma LowHalf(b: nat, p: nat)
    requires p > 0
    ensures b % (2 * p) == b % p + if b / p % 2 == 1 then p else 0
  {
    var h := b / p / 2;
    Distribute(p, 2 * h, 1);
    Doubled(p, h);
    DivModUnique(b, 2 * p, h, b - (2 * p) * h);
  }

  lemma Doubled(p: nat, h: nat)
    ensures p * (2 * h) == (2 * p) * h
  {
  }

  lemma AddWraps(x: nat, y: nat, m: nat)
    requires m > 0
    ensures (x % m + y % m) % m == (x + y) % m
  {
    var s := x % m + y % m;
    assert x == m * (x / m) + x % m && y == m * (y / m) + y % m && s == m * (s / m) + s % m;
    assert m * (x / m) + m * (y / m) + m * (s / m) == m * (x / m + y / m + s / m);
    DivModUnique(x + y, m, x / m + y / m + s / m, s % m);
  }

  lemma AddProduct(a: nat, x: nat, p: nat, m: nat)
    requires m > 0
    ensures (a * (x + p)) % m == ((a * x) % m + (a * p) % m) % m
  {
    Distribute(a, x, p);
    AddWraps(a * x, a * p, m);
  }

  /** One turn of the loop. */
  lemma AddShifted(a: nat, b: nat, i: nat, m: nat, low: nat, high: nat)
    requires m > 0 && low == b % Pow(i) && high == b % Pow(i + 1)
    ensures (a * high) % m == if BitAt(b, i) == 1 then ((a * low) % m + Bits.Shl(a, i) % m) % m else (a * low) % m
  {
    LowHalf(b, Pow(i));
    ShlIsMul(a, i);
    AddProduct(a, low, Pow(i), m);
  }

  /** `mul_u32`: shift and add, wrapping around at the width. */
  method Multiply(a: nat, b: nat, w: nat) returns (r: nat)
    requires a < Pow(w) && b < Pow(w)
    ensures r == a * b % Pow(w)
  {
    r := 0;
    var i := 0;
    DivModUnique(b, Pow(0), b, 0);
    assert a * 0 == 0;
    DivModUnique(0, Pow(w), 0, 0);
    while i < w
      invariant 0 <= i <= w && r == (a * (b % Pow(i))) % Pow(w)
    {
      AddShifted(a, b, i, Pow(w), b % Pow(i), b % Pow(i + 1));
      if BitAt(b, i) == 1 {
        r := (r + Bits.Shl(a, i) % Pow(w)) % Pow(w);
      }
      i := i + 1;
    }
    DivModUnique(b, Pow(w), 0, b);
  }

  // ---------------------------------------------------------------- digits

  predicate IsDigit(c: char, base: nat) {
    ('0' <= c <= '9' && c as int - '0' as int < base) || (base == 16 && 'a' <= c <= 'f')
  }

  function DigitOf(d: nat): char
    requires d < 16
  {
    if d >= 10 then (d - 10 + 'a' as int) as char else (d + '0' as int) as char
  }

  function DigitValue(c: char): int { if 'a' <= c <= 'f' then c as int - 'a' as int + 10 else c as int - '0' as int }

  lemma DigitRoundTrip(d: nat, base: nat)
    requires d < base && (base == 10 || base == 16)
    ensures IsDigit(DigitOf(d), base) && DigitValue(DigitOf(d)) == d
  {
  }

  predicate Digits(s: string, base: nat) { forall i :: 0 <= i < |s| ==> IsDigit(s[i], base) }

  /** The number a string of digits stands for, with the digits read so far in front. */
  function Value(s: string, base: nat, front: int): int {
    if s == "" then front else Value(s[1..], base, front * base + DigitValue(s[0]))
  }

  lemma {:induction false} ValueSnoc(s: string, c: char, base: nat, front: int)
    ensures Value(s + [c], base, front) == Value(s, base, front) * base + DigitValue(c)
    decreases |s|
  {
    if s == "" {
      assert s + [c] == [c];
      assert [c][1..] == "";
    } else {
      assert (s + [c])[1..] == s[1..] + [c];
      ValueSnoc(s[1..], c, base, front * base + DigitValue(s[0]));
    }
  }

  /** Reading on never makes the number smaller. */
  lemma {:induction false} ValueGrows(s: string, base: nat, front: nat)
    requires Digits(s, base) && base > 0
    ensures front <= Value(s, base, front)
    decreases |s|
  {
    if s != "" {
      MulLe(front, 1, base);
      ValueGrows(s[1..], base, front * base + DigitValue(s[0]));
    }
  }

  // ---------------------------------------------------------------- powers of the base

  function Power(base: nat, k: nat): (n: nat)
    requires base > 0
    ensures n > 0
  {
    if k == 0 then 1 else
      MulLe(Power(base, k - 1), 1, base);
      base * Power(base, k - 1)
  }

  lemma Associate(x: nat, y: nat, z: nat)
    ensures (x * y) * z == x * (y * z)
  {
  }

  lemma {:induction false} PowerAdd(base: nat, a: nat, b: nat)
    requires base > 0
    ensures Power(base, a + b) == Power(base, a) * Power(base, b)
  {
    if a > 0 {
      PowerAdd(base, a - 1, b);
      Associate(base, Power(base, a - 1), Power(base, b));
    }
  }

  /** What is below a power of the base divided by the power before is a digit. */
  lemma QuotientIsDigit(base: nat, left: nat, k: nat)
    requires base > 0 && k > 0 && left < Power(base, k)
    ensures left / Power(base, k - 1) < base
  {
    var p := Power(base, k - 1);
    assert left == p * (left / p) + left % p && p * base == base * p;
    if left / p >= base { MulLe(p, base, left / p); }
  }

  /** One more digit off the front of what is left. */
  lemma NextDigit(base: nat, front: nat, p: nat, d: nat, r: nat)
    ensures (front * base + d) * p + r == front * (base * p) + (p * d + r)
  {
    assert (front * base + d) * p == front * base * p + d * p;
    assert front * base * p == front * (base * p);
  }

  // ---------------------------------------------------------------- printing

  /** The digits written so far and what is left of the number. */
  ghost predicate Written(num: nat, base: nat, s: string, left: nat, k: nat)
    requires base > 0
  {
    Digits(s, base) && Value(s, base, 0) >= 0 && num == Value(s, base, 0) * Power(base, k) + left && left < Power(base, k)
  }

  lemma NothingWritten(num: nat, base: nat, k: nat)
    requires base > 0 && num < Power(base, k)
    ensures Written(num, base, "", num, k)
  {
  }

  lemma DigitWritten(num: nat, base: nat, s: string, left: nat, k: nat, d: nat, r: nat)
    requires 1 < base <= 16 && (base == 10 || base == 16) && k > 0 && Written(num, base, s, left, k)
    requires d < base && r < Power(base, k - 1) && left == Power(base, k - 1) * d + r
    ensures Written(num, base, s + [DigitOf(d)], r, k - 1)
  {
    NextDigit(base, Value(s, base, 0), Power(base, k - 1), d, r);
    DigitRoundTrip(d, base);
    ValueSnoc(s, DigitOf(d), base, 0);
    MulLe(base, 0, Value(s, base, 0));
  }

  /** `u32_to_dec` and `u64_to_dec`: `n` digits, by dividing by falling powers of ten. */
  method ToDec(num: nat, n: nat, w: nat, one: nat) returns (s: string)
    requires w > 0 && num < Pow(w) && num < Power(10, n) && 10 <= Pow(one)
    requires forall k :: 0 <= k < n ==> Power(10, k) < Pow(w)
    ensures |s| == n && Digits(s, 10) && Value(s, 10, 0) == num
  {
    var left: nat, i: nat := num, 0;
    s := "";
    NothingWritten(num, 10, n);
    while i < n
      invariant 0 <= i <= n && |s| == i && left <= num && Written(num, 10, s, left, n - i)
    {
      var divider := Power(10, n - i - 1);
      QuotientIsDigit(10, left, n - i);
      var q, r := Divide(left, divider, w, one);
      DigitWritten(num, 10, s, left, n - i, q, r);
      MulLe(divider, 0, q);
      assert DigitOf(q) == (q + '0' as int) as char;
      s, left := s + [(q + '0' as int) as char], r;
      i := i + 1;
    }
  }

  /** The hexadecimal digit that is shifted to the top of the word and then down. */
  function TopDigit(num: nat, i: nat, n: nat): nat
    requires n > 0
  {
    (num * Power(16, i)) % Power(16, n) / Power(16, n - 1)
  }

  lemma ShiftUpAndDown(num: nat, front: nat, left: nat, q: nat, x: nat, y: nat)
    requires num == front * q + left && left < q && x > 0 && y > 0 && q * x > 0 && y * x > 0
    ensures (num * x) % (q * x) / (y * x) == left / y
  {
    assert num * x == (front * q) * x + left * x;
    assert (front * q) * x == (q * x) * front;
    LessProduct(left, q, x);
    MulLe(x, 0, left);
    DivModUnique(num * x, q * x, front, left * x);
    CancelFactor(left, y, x);
  }

  lemma ShiftedDigit(num: nat, front: nat, left: nat, i: nat, n: nat)
    requires i < n && num == front * Power(16, n - i) + left && left < Power(16, n - i)
    ensures TopDigit(num, i, n) == left / Power(16, n - i - 1)
  {
    PowerAdd(16, n - i, i);
    PowerAdd(16, n - i - 1, i);
    ShiftUpAndDown(num, front, left, Power(16, n - i), Power(16, i), Power(16, n - i - 1));
  }

  lemma LessProduct(a: nat, b: nat, x: nat)
    requires a < b && x > 0
    ensures a * x < b * x
  {
    MulLe(x, a + 1, b);
    assert x * (a + 1) == x * a + x && x * a == a * x && x * b == b * x;
  }

  lemma CancelFactor(a: nat, y: nat, x: nat)
    requires x > 0 && y > 0 && y * x > 0
    ensures (a * x) / (y * x) == a / y
  {
    var q, r := a / y, a % y;
    assert a == y * q + r;
    assert a * x == (y * x) * q + r * x;
    LessProduct(r, y, x);
    MulLe(x, 0, r);
    DivModUnique(a * x, y * x, q, r * x);
  }

  lemma HexStep(num: nat, s: string, left: nat, i: nat, n: nat, digit: nat) returns (r: nat)
    requires i < n && Written(num, 16, s, left, n - i)
    requires digit == TopDigit(num, i, n)
    ensures digit < 16 && Written(num, 16, s + [DigitOf(digit)], r, n - i - 1)
  {
    ShiftedDigit(num, Value(s, 16, 0), left, i, n);
    QuotientIsDigit(16, left, n - i);
    var p := Power(16, n - i - 1);
    r := left % p;
    assert left == p * digit + r;
    DigitWritten(num, 16, s, left, n - i, digit, r);
  }

  method HexDigit(num: nat, i: nat, n: nat, ghost s: string, ghost left: nat) returns (c: char, ghost r: nat)
    requires i < n && Written(num, 16, s, left, n - i)
    ensures Written(num, 16, s + [c], r, n - i - 1)
  {
    var digit := TopDigit(num, i, n);
    r := HexStep(num, s, left, i, n, digit);
    c := DigitOf(digit);
  }

  /** `u32_to_hex` and `u64_to_hex`: `n` digits of a word of that many. */
  method ToHex(num: nat, n: nat) returns (s: string)
    requires n > 0 && num < Power(16, n)
    ensures |s| == n && Digits(s, 16) && Value(s, 16, 0) == num
  {
    ghost var left: nat := num;
    var i: nat := 0;
    s := "";
    NothingWritten(num, 16, n);
    while i < n
      invariant 0 <= i <= n && |s| == i && Written(num, 16, s, left, n - i)
    {
      var c;
      c, left := HexDigit(num, i, n, s, left);
      s := s + [c];
      i := i + 1;
    }
  }

  /** A number in its shortest form. */
  ghost predicate Plain(s: string, base: nat, v: nat) {
    s != "" && Digits(s, base) && Value(s, base, 0) == v && (s[0] == '0' ==> s == "0")
  }

  /** The digits from the first one that is not zero. */
  method SkipZeros(buf: string, base: nat) returns (out: string)
    requires Digits(buf, base) && Value(buf, base, 0) > 0
    ensures Plain(out, base, Value(buf, base, 0))
  {
    var i, started := 0, false;
    out := "";
    while i < |buf|
      invariant 0 <= i <= |buf| && (started <==> out != "") && (started ==> out[0] != '0') && Digits(out, base)
      invariant Value(out, base, 0) == Value(buf[..i], base, 0)
    {
      assert buf[..i + 1] == buf[..i] + [buf[i]];
      ValueSnoc(buf[..i], buf[i], base, 0);
      ValueSnoc(out, buf[i], base, 0);
      if buf[i] != '0' {
        started := true;
      }
      if started {
        out := out + [buf[i]];
      }
      i := i + 1;
    }
    assert buf[..|buf|] == buf;
  }

  /** `print_u32` and `print_u64` for one format letter; `w` is the width, `hex` and `dec` the digits it
      takes at most. */
  method Print(fmt: char, num: nat, w: nat, hex: nat, dec: nat, one: nat) returns (out: string)
    requires w > 0 && num < Pow(w) && hex > 0 && Pow(w) == Power(16, hex) && Pow(w) <= Power(10, dec) && 10 <= Pow(one)
    requires forall k :: 0 <= k < dec ==> Power(10, k) < Pow(w)
    requires fmt in {'p', 'x', 'h', 'd', 'u'}
    ensures fmt == 'h' ==> Plain(out, 16, num)
    ensures fmt == 'p' || fmt == 'x' ==> exists s :: out == "0x" + s && Plain(s, 16, num)
    ensures fmt == 'u' || (fmt == 'd' && num < Pow(w - 1)) ==> Plain(out, 10, num)
    ensures fmt == 'd' && num >= Pow(w - 1) ==> exists s :: out == "-" + s && Plain(s, 10, Pow(w) - num)
  {
    if fmt == 'p' || fmt == 'x' || fmt == 'h' {
      var s := PrintHex(num, hex);
      out := if fmt == 'h' then s else "0x" + s;
    } else if fmt == 'd' && num >= Pow(w - 1) {
      var s := PrintDec(Pow(w) - num, dec, w, one);
      out := "-" + s;
    } else {
      out := PrintDec(num, dec, w, one);
    }
  }

  method PrintHex(num: nat, hex: nat) returns (s: string)
    requires hex > 0 && num < Power(16, hex)
    ensures Plain(s, 16, num)
  {
    if num == 0 {
      s := "0";
      ValueSnoc("", '0', 16, 0);
    } else {
      var buf := ToHex(num, hex);
      s := SkipZeros(buf, 16);
    }
  }

  method PrintDec(num: nat, dec: nat, w: nat, one: nat) returns (s: string)
    requires w > 0 && num < Pow(w) <= Power(10, dec) && 10 <= Pow(one)
    requires forall k :: 0 <= k < dec ==> Power(10, k) < Pow(w)
    ensures Plain(s, 10, num)
  {
    if num == 0 {
      s := "0";
      ValueSnoc("", '0', 10, 0);
    } else {
      var buf := ToDec(num, dec, w, one);
      s := SkipZeros(buf, 10);
    }
  }

  // ---------------------------------------------------------------- reading

  predicate IsXdigit(c: char) { '0' <= c <= '9' || 'a' <= c <= 'f' || 'A' <= c <= 'F' }

  /** What a character adds to the number: letters count only in base 16. */
  function Adds(c: char, base: int): nat {
    if '0' <= c <= '9' then c as int - '0' as int
    else if base == 16 && 'a' <= c <= 'f' then c as int - 'a' as int + 10
    else if base == 16 && 'A' <= c <= 'F' then c as int - 'A' as int + 10
    else 0
  }

  function Appended(num: nat, c: char, base: int): nat {
    (num * (if base == 16 then 16 else 10) % WORD64 + Adds(c, base)) % WORD64
  }

  /** Reads hexadecimal digits for as long as there are any, wrapping around at 64 bits. */
  function Scan(s: string, base: int, num: nat): nat {
    if s == "" || !IsXdigit(s[0]) then num
    else Scan(s[1..], base, Appended(num, s[0], base))
  }

  predicate HexPrefix(s: string, base: int) {
    (base == 0 || base == 16) && |s| >= 2 && s[0] == '0' && (s[1] == 'x' || s[1] == 'X')
  }

  function Body(s: string, base: int): nat { if HexPrefix(s, base) then Scan(s[2..], 16, 0) else Scan(s, base, 0) }

  /** What `stou64` makes of a string. */
  function Parse(str: string, base: int): nat {
    if str == "" then 0 else
      var neg := str[0] == '-';
      var s := if neg then str[1..] else str;
      var num := Body(s, base);
      if neg then (WORD64 - num % WORD64) % WORD64 else num
  }

  method Stou64(str: string, base: int) returns (r: nat)
    ensures r == Parse(str, base)
  {
    if str == "" {
      return 0;
    }
    var neg, s, b := false, str, base;
    if s[0] == '-' {
      s, neg := s[1..], true;
    }
    if HexPrefix(s, b) {
      s, b := s[2..], 16;
    }
    ghost var result := Scan(s, b, 0);
    var num: nat := 0;
    while s != "" && IsXdigit(s[0])
      invariant Scan(s, b, num) == result
      decreases |s|
    {
      num := Appended(num, s[0], b);
      s := s[1..];
    }
    r := if neg then (WORD64 - num % WORD64) % WORD64 else num;
  }

  /** As long as the number fits, reading gives the value of the digits. */
  lemma {:induction false} ScanReadsValue(s: string, b: int, base: nat, num: nat)
    requires (base == 16 && b == 16) || (base == 10 && b != 16)
    requires Digits(s, base) && Value(s, base, num) < WORD64
    ensures Scan(s, b, num) == Value(s, base, num)
    decreases |s|
  {
    if s != "" {
      assert IsDigit(s[0], base) && Adds(s[0], b) == DigitValue(s[0]);
      var next := num * base + DigitValue(s[0]);
      MulLe(num, 0, base);
      ValueGrows(s[1..], base, next);
      StepFits(num, base, b, Adds(s[0], b));
      ScanReadsValue(s[1..], b, base, next);
    }
  }

  lemma StepFits(num: nat, base: nat, b: int, d: nat)
    requires (base == 16 && b == 16) || (base == 10 && b != 16)
    requires num * base + d < WORD64
    ensures (num * (if b == 16 then 16 else 10) % WORD64 + d) % WORD64 == num * base + d
  {
    MulLe(num, 0, base);
  }

  /** A plain decimal number is read back, with base 10 or with none given. */
  lemma DecimalReadsBack(s: string, v: nat, b: int)
    requires Plain(s, 10, v) && v < WORD64 && (b == 10 || b == 0)
    ensures Parse(s, b) == v
  {
    assert IsDigit(s[0], 10) && (|s| > 1 ==> IsDigit(s[1], 10));
    ScanReadsValue(s, b, 10, 0);
  }

  /** So is a plain hexadecimal number, with its prefix or, given base 16, without. */
  lemma HexReadsBack(s: string, v: nat, b: int)
    requires Plain(s, 16, v) && v < WORD64 && (b == 16 || b == 0)
    ensures Parse("0x" + s, b) == v && Parse(s, 16) == v
  {
    assert IsDigit(s[0], 16) && (|s| > 1 ==> IsDigit(s[1], 16));
    ScanReadsValue(s, 16, 16, 0);
    assert ("0x" + s)[2..] == s && ("0x" + s)[0] == '0' && ("0x" + s)[1] == 'x';
  }

  /** `atoi` of a negative number in decimal. */
  lemma NegativeReadsBack(s: string, v: nat)
    requires Plain(s, 10, v) && 0 < v <= 0x8000_0000
    ensures Bits.SignedLow32(Parse("-" + s, 10)) + v == 0
  {
    assert IsDigit(s[0], 10) && (|s| > 1 ==> IsDigit(s[1], 10));
    ScanReadsValue(s, 10, 10, 0);
    assert ("-" + s)[1..] == s && ("-" + s)[0] == '-';
    NegatedWord(v);
  }

  lemma NegatedWord(v: nat)
    requires 0 < v <= 0x8000_0000
    ensures Bits.SignedLow32((WORD64 - v % WORD64) % WORD64) + v == 0
  {
  }

  const LOWER := "0123456789abcdef"
  const UPPER := "0123456789ABCDEF"

  ghost predicate Spells(c: char, d: nat) { d < 16 && (c == LOWER[d] || c == UPPER[d]) }

  /** The string is the digits `ds`, each in lower or upper case. */
  ghost predicate Spelled(s: string, ds: seq<nat>) { |s| == |ds| && forall i :: 0 <= i < |s| ==> Spells(s[i], ds[i]) }

  /** Nothing in front of which reading would go on. */
  ghost predicate Ends(rest: string) { rest == "" || forall d: nat :: !Spells(rest[0], d) }

  /** The number in base `base` with the digits `ds`, after `front`; a digit that the base does not have counts as 0. */
  function Number(ds: seq<nat>, base: nat, front: nat): nat {
    if ds == [] then front else Number(ds[1..], base, front * base + if ds[0] < base then ds[0] else 0)
  }

  lemma SpellsIsXdigit(c: char)
    ensures IsXdigit(c) <==> exists d: nat :: Spells(c, d)
  {
    if '0' <= c <= '9' { assert Spells(c, c as int - '0' as int); }
    if 'a' <= c <= 'f' { assert Spells(c, c as int - 'a' as int + 10); }
    if 'A' <= c <= 'F' { assert Spells(c, c as int - 'A' as int + 10); }
  }

  lemma SpelledAdds(c: char, d: nat, b: int)
    requires Spells(c, d)
    ensures Adds(c, b) == if d < 10 || b == 16 then d else 0
  {
  }

  lemma ModShift(x: int, m: int, k: int)
    requires m > 0
    ensures (x + m * k) % m == x % m
  {
    var q := x / m;
    assert m * (q + k) == m * q + m * k;
    DivModUnique(x + m * k, m, q + k, x % m);
  }

  lemma ModStep(front: nat, base: nat, d: nat, m: nat)
    requires m > 0
    ensures (front % m * base % m + d) % m == (front * base + d) % m
  {
    var r, q := front % m, front / m;
    assert front * base == r * base + m * (q * base) by { Associate(m, q, base); assert (r + m * q) * base == r * base + m * q * base; }
    var k := r * base / m;
    assert r * base == m * k + r * base % m;
    ModShift(r * base % m + d, m, k);
    ModShift(r * base + d, m, q * base);
  }

  /** Reading wraps around at 64 bits and stops at the first character that is no digit. */
  lemma {:induction false} ScanReadsNumber(s: string, ds: seq<nat>, rest: string, b: int, front: nat)
    requires Spelled(s, ds) && Ends(rest)
    ensures Scan(s + rest, b, front % WORD64) == Number(ds, if b == 16 then 16 else 10, front) % WORD64
    decreases |s|
  {
    if s == "" {
      assert s + rest == rest;
      ScanStops(rest, b, front % WORD64);
    } else {
      SpelledHead(s, ds);
      ScanOne(s, rest, b, front % WORD64);
      var next := NumberAppended(front, s[0], ds[0], b);
      ScanReadsNumber(s[1..], ds[1..], rest, b, next);
    }
  }

  lemma ScanStops(rest: string, b: int, num: nat)
    requires Ends(rest)
    ensures Scan(rest, b, num) == num
  {
    if rest != "" { SpellsIsXdigit(rest[0]); }
  }

  lemma ScanOne(s: string, rest: string, b: int, num: nat)
    requires s != "" && IsXdigit(s[0])
    ensures Scan(s + rest, b, num) == Scan(s[1..] + rest, b, Appended(num, s[0], b))
  {
    assert (s + rest)[1..] == s[1..] + rest && (s + rest)[0] == s[0];
  }

  lemma SpelledHead(s: string, ds: seq<nat>)
    requires Spelled(s, ds) && s != ""
    ensures Spells(s[0], ds[0]) && IsXdigit(s[0]) && Spelled(s[1..], ds[1..])
  {
    assert Spells(s[0], ds[0]);
    SpellsIsXdigit(s[0]);
  }

  lemma NumberAppended(front: nat, c: char, d: nat, b: int) returns (next: nat)
    requires Spells(c, d)
    ensures Appended(front % WORD64, c, b) == next % WORD64
    ensures var base := if b == 16 then 16 else 10; next == front * base + if d < base then d else 0
  {
    var base: nat := if b == 16 then 16 else 10;
    SpelledAdds(c, d, b);
    next := front * base + Adds(c, b);
    ModStep(front, base, Adds(c, b), WORD64);
  }

  /** What is in front of the digits: the prefix selects base 16, where the base is 16 or left open. */
  ghost predicate Prefixed(prefix: string, s: string, rest: string, base: int) {
    if prefix == "" then !HexStart(s + rest) || (base != 0 && base != 16)
    else (prefix == "0x" || prefix == "0X") && (base == 0 || base == 16)
  }

  ghost predicate HexStart(s: string) { "0x" <= s || "0X" <= s }

  /** The whole of `stou64`: an optional sign and prefix and any digits in front of anything else are read as the
      number that they stand for, negated if there is a sign, modulo 2^64. */
  lemma ReadsNumber(neg: bool, prefix: string, s: string, ds: seq<nat>, rest: string, base: int)
    requires Spelled(s, ds) && Ends(rest) && Prefixed(prefix, s, rest, base)
    requires !neg ==> !("-" <= prefix + s + rest)
    ensures var v: int := Number(ds, if base == 16 || prefix != "" then 16 else 10, 0);
      Parse((if neg then "-" else "") + (prefix + s + rest), base) == (if neg then -v else v) % WORD64
  {
    BodyReads(prefix, s, ds, rest, base);
    SignIsTaken(neg, prefix + s + rest, base);
    NegatedMod(Number(ds, if base == 16 || prefix != "" then 16 else 10, 0));
  }

  lemma SignIsTaken(neg: bool, body: string, base: int)
    requires !neg ==> !("-" <= body)
    ensures Parse((if neg then "-" else "") + body, base) ==
      if neg then (WORD64 - Body(body, base) % WORD64) % WORD64 else Body(body, base)
  {
    if neg {
      assert ("-" + body)[1..] == body && ("-" + body)[0] == '-';
    } else {
      assert "" + body == body;
      assert body != "" ==> (body[0] == '-' <==> "-" <= body);
    }
  }

  lemma BodyReads(prefix: string, s: string, ds: seq<nat>, rest: string, base: int)
    requires Spelled(s, ds) && Ends(rest) && Prefixed(prefix, s, rest, base)
    ensures Body(prefix + s + rest, base) == Number(ds, if base == 16 || prefix != "" then 16 else 10, 0) % WORD64
  {
    var body := prefix + s + rest;
    assert body == prefix + (s + rest) && (s + rest) + "" == s + rest;
    PrefixIsTaken(prefix, s + rest, base, body);
    ScanReadsNumber(s, ds, rest, if base == 16 || prefix != "" then 16 else base, 0);
  }

  lemma PrefixIsTaken(prefix: string, s: string, base: int, body: string)
    requires body == prefix + s && Prefixed(prefix, s, "", base)
    ensures HexPrefix(body, base) <==> prefix != ""
    ensures body[|prefix|..] == s && |prefix| == if prefix == "" then 0 else 2
  {
    assert s + "" == s;
    assert HexStart(body) <==> |body| >= 2 && body[0] == '0' && (body[1] == 'x' || body[1] == 'X');
    if prefix != "" { assert body[0] == '0' && (body[1] == 'x' || body[1] == 'X'); }
  }

  lemma NegatedMod(v: int)
    requires v >= 0
    ensures (WORD64 - v % WORD64 % WORD64) % WORD64 == -v % WORD64
  {
    ModShift(WORD64 - v % WORD64, WORD64, -(v / WORD64) - 1);
  }

  // ---------------------------------------------------------------- round trips

  lemma Width32(w: nat)
    requires w == 32
    ensures Pow(w) == Bits.WORD32 && Pow(w - 1) == 0x8000_0000 && Pow(w) == Power(16, 8) && Pow(w) <= Power(10, 10)
    ensures forall k :: 0 <= k < 10 ==> Power(10, k) < Pow(w)
  {
    Bits.PowOfWord();
    assert Power(16, 1) == 16 && Power(16, 2) == 256;
    PowerAdd(16, 2, 2);
    PowerAdd(16, 4, 4);
    assert Power(10, 1) == 10 && Power(10, 2) == 100;
    PowerAdd(10, 2, 2);
    PowerAdd(10, 4, 4);
    PowerAdd(10, 8, 2);
    PowerAdd(10, 1, 8);
    forall k | 0 <= k < 10 ensures Power(10, k) <= Power(10, 9) { PowerMonotone(k, 9); }
  }

  lemma Width64(w: nat, h: nat)
    requires w == 64 && h == 32
    ensures Pow(w) == WORD64 && Pow(w) == Power(16, 16) && Pow(w) <= Power(10, 20)
    ensures forall k :: 0 <= k < 20 ==> Power(10, k) < Pow(w)
  {
    Width32(h);
    Bits.PowAdd(h, h);
    PowerAdd(16, 8, 8);
    PowerAdd(10, 10, 10);
    PowerAdd(10, 9, 10);
    assert Power(10, 9) == 1_000_000_000 && Power(10, 10) == 10_000_000_000 by { TenToTheTenth(); }
    forall k | 0 <= k < 20 ensures Power(10, k) <= Power(10, 19) { PowerMonotone(k, 19); }
  }

  lemma TenToTheTenth()
    ensures Power(10, 9) == 1_000_000_000 && Power(10, 10) == 10_000_000_000
  {
    assert Power(10, 1) == 10 && Power(10, 2) == 100;
    PowerAdd(10, 2, 2);
    PowerAdd(10, 4, 4);
    PowerAdd(10, 1, 8);
    PowerAdd(10, 1, 9);
  }

  lemma {:induction false} PowerMonotone(j: nat, k: nat)
    requires j <= k
    ensures Power(10, j) <= Power(10, k)
  {
    if j < k { PowerMonotone(j, k - 1); }
  }

  /** Every unsigned number of 32 or 64 bits, printed in either base, reads back; `h` is 32, the width
      of the one that division shifts. */
  method UnsignedRoundTrip(num: nat, w: nat, h: nat, fmt: char) returns (r: nat)
    requires (w == 32 || w == 64) && h == 32 && num < Pow(w) && fmt in {'p', 'x', 'u'}
    ensures r == num
  {
    Width32(h);
    if w == 32 { Width32(w); } else { Width64(w, h); }
    var out := Print(fmt, num, w, if w == 32 then 8 else 16, if w == 32 then 10 else 20, h);
    r := Stou64(out, 0);
    if fmt == 'u' {
      DecimalReadsBack(out, num, 0);
    } else {
      ghost var s :| out == "0x" + s && Plain(s, 16, num);
      HexReadsBack(s, num, 0);
    }
  }

  lemma IntAsWord(v: int)
    requires -0x8000_0000 <= v < 0x8000_0000
    ensures v % Bits.WORD32 == if v >= 0 then v else v + Bits.WORD32
    ensures v >= 0 ==> Bits.SignedLow32(v) == v
  {
  }

  /** Every int, printed with its sign, reads back. */
  method SignedRoundTrip(v: int, w: nat) returns (r: int)
    requires w == 32 && -0x8000_0000 <= v < 0x8000_0000
    ensures r == v
  {
    Width32(w);
    IntAsWord(v);
    var num := v % Bits.WORD32;
    var out := Print('d', num, w, 8, 10, w);
    var u := Stou64(out, 10);
    r := Bits.SignedLow32(u);
    if v >= 0 {
      DecimalReadsBack(out, num, 10);
    } else {
      ghost var s :| out == "-" + s && Plain(s, 10, Pow(w) - num);
      NegativeReadsBack(s, -v);
    }
  }
}
