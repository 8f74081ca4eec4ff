/**
 * highbit (module/spl/spl-generic.c): the 1-based index of the most
 * significant set bit of an unsigned long, found by a binary search that
 * halves the width still to inspect at every step.
 *
 * The unsigned long is modelled as a natural number below 2^BITS_PER_LONG.
 * A test `i & m` against a mask m of contiguous bits lo..lo+n-1 is the
 * test Field(i, lo, n) != 0, and the shift `i >>= k` is the division
 * i / 2^k, which is what an unsigned right shift computes.
 */
module HighBit {
  import opened Arith
  import opened Platform

  /** The number of bits needed to write n in binary: 0 for 0. */
  function BitLength(n: nat): nat
  {
    if n == 0 then 0 else 1 + BitLength(n / 2)
  }

  /**
   * The upper k bits of the low 2k bits of x, where p = 2^k: the value of
   * (x & m) >> k for the mask m whose bits k..2k-1 are set (0xff00 for
   * k = 8, for instance). Nonzero exactly when x & m is.
   */
  function UpperHalf(x: nat, p: nat): (r: nat)
    requires p >= 1
    ensures r < p
  {
    (x / p) % p
  }

  /** A positive n has BitLength(n) = h exactly when 2^(h-1) <= n < 2^h. */
  lemma {:induction false} BitLengthBounds(n: nat)
    ensures n == 0 <==> BitLength(n) == 0
    ensures n > 0 ==> Pow2(BitLength(n) - 1) <= n < Pow2(BitLength(n))
  {
    if n >= 2 {
      DivMod(n, 2);
      BitLengthBounds(n / 2);
    }
  }

  /** The converse: the bounds 2^(h-1) <= n < 2^h determine the bit length. */
  lemma BitLengthUnique(n: nat, h: nat)
    requires h >= 1 && Pow2(h - 1) <= n < Pow2(h)
    ensures BitLength(n) == h
  {
    BitLengthBounds(n);
    var b := BitLength(n);
    if b < h {
      Pow2Mono(b, h - 1);
    } else if b > h {
      Pow2Mono(h, b - 1);
    }
  }

  /** A value of a w-bit type has at most w bits. */
  lemma {:induction false} BitLengthFits(n: nat, w: nat)
    requires n < Pow2(w)
    ensures BitLength(n) <= w
  {
    if n > 0 {
      DivMod(n, 2);
      BitLengthFits(n / 2, w - 1);
    }
  }

  /**
   * What highbit returns for an unsigned long i: 0 for 0, otherwise a
   * position h in 1..BITS_PER_LONG with 2^(h-1) <= i < 2^h.
   */
  lemma HighBitRange(arch: Arch, i: nat)
    requires i < Pow2(BitsPerLong(arch))
    ensures 0 <= BitLength(i) <= BitsPerLong(arch)
    ensures BitLength(i) == 0 <==> i == 0
    ensures i > 0 ==> Pow2(BitLength(i) - 1) <= i < Pow2(BitLength(i))
  {
    BitLengthFits(i, BitsPerLong(arch));
    BitLengthBounds(i);
  }

  /**
   * The state of the search with p = 2^k values left to inspect: x is
   * nonzero and below p, and h - 1 bits have been shifted out of i.
   */
  ghost predicate Searching(i: nat, x: nat, h: int, p: nat) {
    0 < x < p && h - 1 + BitLength(x) == BitLength(i)
  }

  /**
   * The model of highbit: the same sequence of mask tests and shifts, the
   * 32-bit step present only when BITS_PER_LONG is 64. Each of the first
   * five steps is the same test-add-shift block, written once as Narrow.
   */
  method HighBit(arch: Arch, i: nat) returns (h: int)
    requires i < Pow2(BitsPerLong(arch))
    ensures h == BitLength(i)
  {
    var x := i;
    h := 1;
    if x == 0 {
      assert BitLength(0) == 0;
      return 0;
    }
    Pow2Table();
    if arch == Bits64 {
      // i & 0xffffffff00000000
      x, h := Narrow(i, x, h, 32, 0x1_0000_0000, 0x1_0000_0000_0000_0000);
    }
    // i & 0xffff0000
    x, h := Narrow(i, x, h, 16, 0x1_0000, 0x1_0000_0000);
    // i & 0xff00
    x, h := Narrow(i, x, h, 8, 0x100, 0x1_0000);
    // i & 0xf0
    x, h := Narrow(i, x, h, 4, 0x10, 0x100);
    // i & 0xc
    x, h := Narrow(i, x, h, 2, 4, 0x10);
    // i & 0x2
    FieldStep(i, x, h, 1, 2, 4);
    ghost var rest := x;
    if UpperHalf(x, 2) != 0 {
      h := h + 1;
      rest := x / 2;
    }
    LastBit(i, rest, h);
  }

  /**
   * One block of highbit with mask bits k..2k-1 (p = 2^k): when x & mask
   * is nonzero, add k to h and shift x right by k. The search state is
   * kept, with half as many bits left to inspect.
   */
  method Narrow(ghost i: nat, x: nat, h: int, k: nat, p: nat, pp: nat) returns (x': nat, h': int)
    requires Level(k, p, pp) && Searching(i, x, h, pp)
    ensures Searching(i, x', h', p)
    ensures UpperHalf(x, p) != 0 ==> x' == x / p && h' == h + k
    ensures UpperHalf(x, p) == 0 ==> x' == x && h' == h
  {
    FieldStep(i, x, h, k, p, pp);
    x', h' := x, h;
    if UpperHalf(x, p) != 0 {
      h' := h' + k;
      x' := x' / p;
    }
  }

  /** With one value left, x is 1 and h is the bit length of i. */
  lemma LastBit(i: nat, x: nat, h: int)
    requires Searching(i, x, h, 2)
    ensures h == BitLength(i)
  {
    assert BitLength(1) == 1;
  }

  /**
   * One step of the search, from p * p values left to p = 2^k: the upper
   * half is nonzero exactly when x >= p, and shifting it out keeps the
   * search state.
   */
  lemma FieldStep(i: nat, x: nat, h: int, k: nat, p: nat, pp: nat)
    requires Level(k, p, pp) && Searching(i, x, h, pp)
    ensures UpperHalf(x, p) != 0 ==> Searching(i, x / p, h + k, p)
    ensures UpperHalf(x, p) == 0 ==> Searching(i, x, h, p)
  {
    BelowSquare(x, k, p);
    if x >= p {
      ShiftOut(x, k);
    }
  }

  /** Below p * p, where p = 2^k, the upper half x / p is itself below p, and zero exactly when x < p. */
  lemma BelowSquare(x: nat, k: nat, p: nat)
    requires p == Pow2(k) && x < Pow2(k + k)
    ensures x / p < p && UpperHalf(x, p) == x / p
    ensures x / p == 0 <==> x < p
  {
    Pow2Add(k, k);
    var q, r := x / p, x % p;
    DivMod(x, p);
    if q >= p {
      MulLe(p, q, p);
      assert false;
    }
    ModUnique(q, p, 0, q);
    if q >= 1 {
      MulAtLeast(q, p);
    }
  }

  lemma MulLe(a: nat, b: nat, m: nat)
    requires a <= b
    ensures a * m <= b * m
  {
    MulNonneg(b - a, m);
    assert b * m == a * m + (b - a) * m;
  }

  /** p = 2^k and pp = 2^(2k): the sizes before and after one step that inspects k bits. */
  ghost predicate Level(k: nat, p: nat, pp: nat) {
    p == Pow2(k) && pp == Pow2(k + k)
  }

  /** The powers of two the search divides by. */
  lemma Pow2Table()
    ensures Level(32, 0x1_0000_0000, 0x1_0000_0000_0000_0000) && Level(16, 0x1_0000, 0x1_0000_0000)
    ensures Level(8, 0x100, 0x1_0000) && Level(4, 0x10, 0x100) && Level(2, 4, 0x10) && Level(1, 2, 4)
    ensures Pow2(32) == 0x1_0000_0000 && Pow2(64) == 0x1_0000_0000_0000_0000
  {
    assert Pow2(1) == 2 * Pow2(0);
    Square(1, 2);
    Square(2, 4);
    Square(4, 0x10);
    Square(8, 0x100);
    Square(16, 0x1_0000);
    Square(32, 0x1_0000_0000);
  }

  lemma Square(n: nat, v: nat)
    requires Pow2(n) == v
    ensures Pow2(n + n) == v * v
  {
    Pow2Add(n, n);
  }

  /** Shifting out k bits of a number of at least k + 1 bits shortens it by k. */
  lemma {:induction false} ShiftOut(x: nat, k: nat)
    requires x >= Pow2(k)
    ensures k + BitLength(x / Pow2(k)) == BitLength(x)
  {
    if k == 0 {
      ModUnique(x, 1, x, 0);
    } else {
      var y := x / 2;
      assert y >= Pow2(k - 1);
      ShiftOut(y, k - 1);
      HalveTwice(x, Pow2(k - 1));
    }
  }

  /** x / (2 * p) == (x / 2) / p. */
  lemma HalveTwice(x: nat, p: nat)
    requires p >= 1
    ensures x / (2 * p) == (x / 2) / p
  {
    var q, r2 := (x / 2) / p, (x / 2) % p;
    assert x / 2 == q * p + r2;
    assert x == q * (2 * p) + (2 * r2 + x % 2);
    ModUnique(x, 2 * p, q, 2 * r2 + x % 2);
  }
}
