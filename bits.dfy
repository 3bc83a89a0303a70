/**
 Unsigned fixed-width arithmetic on natural numbers: powers of two, the
 truncation a `length`-bit bus applies to every value assigned to it, and
 the selection of one bit by its index (bit 0 is the least significant).
 */
module Bits {

  /** 2^n, the number of distinct values of an n-bit bus. */
  function Pow2(n: nat): (r: nat)
    ensures r >= 1
    ensures n >= 1 ==> r % 2 == 0
  {
    if n == 0 then 1 else 2 * Pow2(n - 1)
  }

  /** A positive multiple of a positive number is at least that number. */
  lemma MulAtLeast(d: int, m: int)
    requires d >= 1 && m > 0
    ensures d * m >= m
  {
    assert d * m == m + (d - 1) * m;
  }

  /** Quotient and remainder are determined by the defining equation. */
  lemma DivModUnique(x: int, m: int, q: int, r: int)
    requires m > 0 && 0 <= r < m && x == q * m + r
    ensures x / m == q && x % m == r
  {
    var q', r' := x / m, x % m;
    assert q * m + r == q' * m + r';
    assert (q - q') * m == r' - r;
    if q > q' {
      MulAtLeast(q - q', m);
    } else if q < q' {
      MulAtLeast(q' - q, m);
    }
  }

  /**
   The value an `length`-bit bus holds after `v` is assigned to it: the
   bits above position `length - 1` are dropped.
   */
  function Wrap(v: nat, length: nat): (r: nat)
    ensures r < Pow2(length)
    ensures (v - r) % Pow2(length) == 0
    ensures v < Pow2(length) ==> r == v
  {
    var m := Pow2(length);
    DivModUnique(v - v % m, m, v / m, 0);
    if v < m then DivModUnique(v, m, 0, v); v % m else v % m
  }

  /**
   Bit `i` of `v`: shift right by `i` places, then look at the lowest bit.
   True stands for 1.
   */
  function Bit(v: nat, i: nat): bool
  {
    if i == 0 then v % 2 == 1 else Bit(v / 2, i - 1)
  }

  /** The digit `r2` below base `b`, scaled by `a`, plus `r1` below `a`, stays below `a * b`. */
  lemma MixedRadixBound(r2: int, r1: int, a: int, b: int)
    requires 0 <= r2 < b && 0 <= r1 < a
    ensures 0 <= r2 * a + r1 < a * b
  {
    assert (b - r2 - 1) * a >= 0;
    assert a * b == (b - r2 - 1) * a + r2 * a + a;
  }

  lemma Regroup(q2: int, b: int, r2: int, a: int)
    ensures (q2 * b + r2) * a == q2 * (a * b) + r2 * a
  {
  }

  /** Dividing by `a` and then by `b` is dividing by `a * b`. */
  lemma DivDiv(v: nat, a: nat, b: nat)
    requires a > 0 && b > 0
    ensures v / a / b == v / (a * b)
  {
    var q1, r1 := v / a, v % a;
    var q2, r2 := q1 / b, q1 % b;
    assert v == q1 * a + r1;
    assert q1 == q2 * b + r2;
    Regroup(q2, b, r2, a);
    MixedRadixBound(r2, r1, a, b);
    DivModUnique(v, a * b, q2, r2 * a + r1);
  }

  /** Bit `i` of `v` is the parity of `v / 2^i`, i.e. `(v >> i) & 1`. */
  lemma {:induction false} BitIsShiftAnd(v: nat, i: nat)
    ensures Bit(v, i) <==> (v / Pow2(i)) % 2 == 1
  {
    if i > 0 {
      BitIsShiftAnd(v / 2, i - 1);
      DivDiv(v, 2, Pow2(i - 1));
    }
  }

  /**
   For a value that fits in `n` bits, the top bit (index `n - 1`) is set
   exactly when the value lies in the upper half of the range.
   */
  lemma TopBitIsUpperHalf(v: nat, n: nat)
    requires n >= 1 && v < Pow2(n)
    ensures Bit(v, n - 1) <==> v >= Pow2(n - 1)
  {
    var h := Pow2(n - 1);
    BitIsShiftAnd(v, n - 1);
    if v < h {
      DivModUnique(v, h, 0, v);
    } else {
      DivModUnique(v, h, 1, v - h);
    }
  }

  /** Adding after truncation and truncating again is truncating once. */
  lemma AddOneMod(x: nat, m: nat)
    requires m > 0
    ensures (x % m + 1) % m == (x + 1) % m
  {
    var q, r := x / m, x % m;
    if r + 1 < m {
      DivModUnique(x + 1, m, q, r + 1);
      DivModUnique(r + 1, m, 0, r + 1);
    } else {
      DivModUnique(x + 1, m, q + 1, 0);
      DivModUnique(r + 1, m, 1, 0);
    }
  }

  /** Adding one whole period does not change the remainder. */
  lemma ModAddPeriod(k: nat, m: nat)
    requires m > 0
    ensures (k + m) % m == k % m
  {
    var q, r := k / m, k % m;
    assert k + m == (q + 1) * m + r;
    DivModUnique(k + m, m, q + 1, r);
  }

  /**
   Adding half a period `h` of the period `2h` moves a remainder from the
   lower half to the upper half and back.
   */
  lemma ModAddHalfPeriod(k: nat, h: nat)
    requires h > 0
    ensures (k + h) % (2 * h) >= h <==> k % (2 * h) < h
  {
    var m := 2 * h;
    var q, r := k / m, k % m;
    assert (q + 1) * m == q * m + m;
    if r < h {
      DivModUnique(k + h, m, q, r + h);
    } else {
      DivModUnique(k + h, m, q + 1, r - h);
    }
  }
}
