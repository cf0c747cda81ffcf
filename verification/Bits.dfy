/** Bit counting on machine words, as loops over the bits. */
module Bits {
  import opened Pow2

  const WORD32: nat := 0x1_0000_0000

  /** A word cut down to a 32-bit int. */
  function SignedLow32(u: nat): int {
    var low := u % WORD32;
    if low < 0x8000_0000 then low else low - WORD32
  }

  /** Shifts without a width limit, one bit at a time. */
  function Shl(x: nat, n: nat): nat { if n == 0 then x else 2 * Shl(x, n - 1) }

  function Shr(x: nat, n: nat): nat { if n == 0 then x else Shr(x, n - 1) / 2 }

  lemma {:induction false} PowAdd(a: nat, b: nat)
    ensures Pow(a + b) == Pow(a) * Pow(b)
  {
    if a > 0 {
      PowAdd(a - 1, b);
      assert Pow(a) * Pow(b) == 2 * Pow(a - 1) * Pow(b);
    }
  }

  lemma PowOfWord()
    ensures Pow(15) == 0x8000 && Pow(16) == 0x1_0000 && Pow(31) == 0x8000_0000 && Pow(32) == WORD32
  {
    assert Pow(1) == 2 && Pow(3) == 8 && Pow(4) == 16;
    PowAdd(4, 4);
    PowAdd(8, 8);
    PowAdd(16, 16);
    PowAdd(1, 15);
    PowAdd(1, 31);
  }

  lemma {:induction false} ShlCompare(x: nat, n: nat, m: nat)
    requires n <= m
    ensures Shl(x, n) < Pow(m) <==> x < Pow(m - n)
  {
    if n > 0 { ShlCompare(x, n - 1, m - 1); }
  }

  lemma {:induction false} ShrBelow(x: nat, n: nat, m: nat)
    requires n <= m && x < Pow(m)
    ensures Shr(x, n) < Pow(m - n)
  {
    if n > 0 { ShrBelow(x, n - 1, m); }
  }

  /** The number of one bits. */
  function PopCount(x: nat): nat {
    if x == 0 then 0 else x % 2 + PopCount(x / 2)
  }

  lemma {:induction false} ShlZero(n: nat)
    ensures Shl(0, n) == 0
  {
    if n > 0 { ShlZero(n - 1); }
  }

  /** Leading zeros of a word: shift left until the top bit appears. */
  method Clz(val: nat, width: nat) returns (z: nat)
    requires width > 0 && val < Pow(width)
    ensures z <= width && (val == 0 <==> z == width)
    ensures val > 0 ==> Pow(width - 1 - z) <= val < Pow(width - z)
  {
    z := 0;
    var cur := val;
    while z < width && cur < Pow(width - 1)
      invariant 0 <= z <= width && cur < Pow(width)
      invariant cur == Shl(val, z)
    {
      cur := cur * 2;
      z := z + 1;
    }
    ShlCompare(val, z, width);
    if z < width { ShlCompare(val, z, width - 1); }
    if val == 0 { ShlZero(z); }
  }

  method Clz32(val: nat) returns (z: nat)
    requires val < WORD32
    ensures z <= 32 && (val == 0 <==> z == 32)
    ensures val > 0 ==> Pow(31 - z) <= val < Pow(32 - z)
  {
    PowOfWord();
    z := Clz(val, 32);
  }

  method PopCount32(val: nat) returns (count: nat)
    requires val < WORD32
    ensures count == PopCount(val)
  {
    count := 0;
    var i := 0;
    while i < 32
      invariant 0 <= i <= 32 && count + PopCount(Shr(val, i)) == PopCount(val)
    {
      if Shr(val, i) % 2 == 1 {
        count := count + 1;
      }
      i := i + 1;
    }
    PowOfWord();
    ShrBelow(val, 32, 32);
  }

  lemma {:induction false} PopCountOfPower(x: nat, j: nat)
    requires Pow(j) <= x < Pow(j + 1)
    ensures PopCount(x) >= 1 && (PopCount(x) == 1 <==> x == Pow(j))
  {
    if j > 0 {
      assert Pow(j - 1) <= x / 2 < Pow(j);
      PopCountOfPower(x / 2, j - 1);
    }
  }
}
