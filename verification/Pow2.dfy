/** Powers of two and power-of-two alignment, by halving, so that every proof
    about them is linear arithmetic. */
module Pow2 {

  function Pow(k: nat): (n: nat)
    ensures n >= 1
  {
    if k == 0 then 1 else 2 * Pow(k - 1)
  }

  /** `p` is a multiple of 2^k. */
  predicate Aligned(p: nat, k: nat) {
    k == 0 || (p % 2 == 0 && Aligned(p / 2, k - 1))
  }

  lemma {:induction false} PowMonotone(j: nat, k: nat)
    requires j <= k
    ensures Pow(j) <= Pow(k)
  {
    if j < k { PowMonotone(j, k - 1); }
  }

  lemma {:induction false} PowStrict(j: nat, k: nat)
    requires j < k
    ensures 2 * Pow(j) <= Pow(k)
  {
    PowMonotone(j + 1, k);
  }

  /** The halving definition says what the mask test `p & (2^k - 1) == 0` says. */
  lemma {:induction false} AlignedIsMod(p: nat, k: nat)
    ensures Aligned(p, k) <==> p % Pow(k) == 0
  {
    if k > 0 {
      AlignedIsMod(p / 2, k - 1);
      ModDouble(p, Pow(k - 1));
    }
  }

  lemma ModDouble(p: nat, m: nat)
    requires m >= 1
    ensures p % (2 * m) == 0 <==> p % 2 == 0 && (p / 2) % m == 0
  {
    var h := p / 2;
    if p % 2 == 0 && h % m == 0 {
      var q := h / m;
      assert p == 2 * (m * q);
      assert p == (2 * m) * q;
      MulMod(2 * m, q);
    }
    if p % (2 * m) == 0 {
      var q := p / (2 * m);
      assert p == (2 * m) * q;
      assert p == 2 * (m * q);
      assert h == m * q;
      MulMod(m, q);
    }
  }

  lemma MulMod(m: nat, q: nat)
    requires m >= 1
    ensures (m * q) % m == 0
  {
    DivModUnique(m * q, m, q, 0);
  }

  /** Quotient and remainder are unique. */
  lemma DivModUnique(x: int, m: int, q: int, r: int)
    requires x == m * q + r && 0 <= r < m
    ensures x / m == q && x % m == r
  {
    var q', r' := x / m, x % m;
    assert x == m * q' + r' && 0 <= r' < m;
    var d := q - q';
    assert m * d == m * q - m * q';
    assert m * d == r' - r;
    if d >= 1 {
      MulLe(m, 1, d);
      assert false;
    } else if d <= -1 {
      MulLe(m, d, -1);
      assert false;
    }
  }

  lemma MulLe(m: int, a: int, b: int)
    requires m >= 0 && a <= b
    ensures m * a <= m * b
  {
  }

  lemma {:induction false} AlignedDown(p: nat, j: nat, k: nat)
    requires j <= k && Aligned(p, k)
    ensures Aligned(p, j)
  {
    if j > 0 { AlignedDown(p / 2, j - 1, k - 1); }
  }

  /** Two aligned blocks are nested or disjoint. */
  lemma {:induction false} Laminar(p: nat, j: nat, q: nat, k: nat)
    requires j <= k && Aligned(p, j) && Aligned(q, k)
    requires p < q + Pow(k) && q < p + Pow(j)
    ensures q <= p && p + Pow(j) <= q + Pow(k)
  {
    if j > 0 { Laminar(p / 2, j - 1, q / 2, k - 1); }
  }

  /** The upper half of an aligned block is aligned for the half, and not for the whole. */
  lemma {:induction false} UpperHalf(p: nat, k: nat)
    requires Aligned(p, k + 1)
    ensures Aligned(p + Pow(k), k) && !Aligned(p + Pow(k), k + 1)
  {
    if k > 0 {
      UpperHalf(p / 2, k - 1);
      assert (p + Pow(k)) % 2 == 0 && (p + Pow(k)) / 2 == p / 2 + Pow(k - 1);
    }
  }

  /** A block that is not the lower half of its parent is the upper half. */
  lemma {:induction false} LowerHalf(p: nat, k: nat)
    requires Aligned(p, k) && !Aligned(p, k + 1)
    ensures p >= Pow(k) && Aligned(p - Pow(k), k + 1)
  {
    if k > 0 {
      LowerHalf(p / 2, k - 1);
      assert (p - Pow(k)) % 2 == 0 && (p - Pow(k)) / 2 == p / 2 - Pow(k - 1);
    }
  }
}
