/**
 * Facts about powers of two and Euclidean remainder that the models of
 * W-bit unsigned arithmetic rely on.
 */
module Arith {

  /** 2^n: the number of values of an n-bit unsigned C type. */
  function Pow2(n: nat): (r: nat)
    ensures r >= 1
  {
    if n == 0 then 1 else 2 * Pow2(n - 1)
  }

  /** 2^(a+b) = 2^a * 2^b. */
  lemma {:induction false} Pow2Add(a: nat, b: nat)
    ensures Pow2(a + b) == Pow2(a) * Pow2(b)
  {
    if a > 0 {
      Pow2Add(a - 1, b);
      assert Pow2(a + b) == 2 * Pow2(a - 1 + b);
    }
  }

  /** Euclidean division of a natural number by a positive one. */
  lemma DivMod(x: int, p: int)
    requires x >= 0 && p > 0
    ensures x == (x / p) * p + x % p && 0 <= x % p < p && x / p >= 0
  {
    var q, r := x / p, x % p;
    assert x == q * p + r;
    if q < 0 {
      MulAtLeast(-q, p);
      assert false;
    }
  }

  /** 2^n grows with n. */
  lemma {:induction false} Pow2Mono(a: nat, b: nat)
    requires a <= b
    ensures Pow2(a) <= Pow2(b)
    decreases b - a
  {
    if a < b {
      Pow2Mono(a, b - 1);
    }
  }

  lemma MulAtLeast(a: int, m: int)
    requires a >= 1 && m > 0
    ensures a * m >= m
  {
    assert a * m == (a - 1) * m + m;
  }

  lemma MulNonneg(a: int, b: int)
    requires a >= 0 && b >= 0
    ensures a * b >= 0
  {
  }

  /** Euclidean division is unique: a decomposition y = q*m + r with 0 <= r < m gives y / m and y % m. */
  lemma ModUnique(y: int, m: int, q: int, r: int)
    requires m > 0 && y == q * m + r && 0 <= r < m
    ensures y % m == r && y / m == q
  {
    var q', r' := y / m, y % m;
    assert y == q' * m + r';
    var d := q - q';
    assert d * m == r' - r;
    if d > 0 {
      MulAtLeast(d, m);
    } else if d < 0 {
      MulAtLeast(-d, m);
    }
  }

  /** Reducing the accumulator before a multiply-add step does not change the reduced result. */
  lemma ModStep(a: int, b: int, d: int, m: int)
    requires m > 0
    ensures (a % m * b + d) % m == (a * b + d) % m
  {
    var q, r := a / m, a % m;
    assert a == q * m + r;
    var y := r * b + d;
    assert a * b + d == y + (q * b) * m;
    ModUnique(y, m, y / m, y % m);
    ModUnique(a * b + d, m, y / m + q * b, y % m);
  }

  /** Dividing a number of at least b by b leaves a smaller positive quotient and a digit. */
  lemma DivStep(v: int, b: int)
    requires b >= 2 && v >= b
    ensures 1 <= v / b < v
    ensures 0 <= v % b < b
    ensures (v / b) * b + v % b == v
  {
    var q, r := v / b, v % b;
    assert v == q * b + r;
    if q <= 0 {
      MulNonneg(-q, b);
      assert false;
    }
    MulAtLeast(q, b - 1);
    assert q * b == q * (b - 1) + q;
  }
}
