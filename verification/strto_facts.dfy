/**
 * What the ddi_strto* family promises, and where it departs from the usual
 * strtoul rules, stated about the specification functions of module StrTo.
 */
module StrToFacts {
  import opened Ctype
  import opened Arith
  import opened StrTo

  // ---------------------------------------------------------------------
  // Base selection
  // ---------------------------------------------------------------------

  /**
   * The octal test of the auto-detection compares a byte with the integer
   * 8: no byte is both at least '0' and below 8, so base 8 is never chosen.
   */
  lemma OctalTestNeverHolds(c: char)
    ensures !(c >= '0' && c as int < 8)
  {
  }

  /**
   * Under auto-detection a leading '0' is accepted only as a "0x"/"0X"
   * prefix followed by a hex digit; everything else starting with '0',
   * octal numbers and the bare "0" included, is EINVAL.
   */
  lemma LeadingZeroNeedsHexPrefix(s: seq<char>, str: nat, w: nat)
    requires At(s, str) == '0'
    ensures Parse(s, str, 0, w) == Invalid <==> !(ToLower(At(s, str + 1)) == 'x' && IsXDigit(At(s, str + 2)))
  {
  }

  /** "0", "017" and "0x" are all rejected under auto-detection. */
  lemma ZeroOctalAndBarePrefixRejected(w: nat)
    ensures Parse("0", 0, 0, w) == Invalid
    ensures Parse("017", 0, 0, w) == Invalid
    ensures Parse("0x", 0, 0, w) == Invalid
  {
    LeadingZeroNeedsHexPrefix("0", 0, w);
    LeadingZeroNeedsHexPrefix("017", 0, w);
    LeadingZeroNeedsHexPrefix("0x", 0, w);
  }

  /**
   * "0x"/"0X" and a hex digit select base 16 and skip exactly the two
   * prefix bytes: the call is the same as a base-16 call two bytes later.
   */
  lemma HexPrefixSkipsTwo(s: seq<char>, str: nat, w: nat)
    requires At(s, str) == '0' && ToLower(At(s, str + 1)) == 'x' && IsXDigit(At(s, str + 2))
    ensures Parse(s, str, 0, w) == Parse(s, str + 2, 16, w)
  {
  }

  /** Any other first byte selects base 10 without skipping anything. */
  lemma OtherFirstByteIsDecimal(s: seq<char>, str: nat, w: nat)
    requires At(s, str) != '0'
    ensures Parse(s, str, 0, w) == Parse(s, str, 10, w)
  {
  }

  /** A nonzero base is used as given, with no prefix skipped: "0x1A" in base 16 stops at 'x'. */
  lemma ExplicitBaseSkipsNoPrefix(w: nat)
    ensures Parse("0x1A", 0, 16, w) == Parsed(0, 1)
  {
    var s := "0x1A";
    assert !Accepts(At(s, 1), 16);
    assert RunEnd(s, 0, 16) == 1;
    assert Exact(s, 0, 1, 16) == 0;
    ModUnique(0, Pow2(w), 0, 0);
    ScanStops(s, 0, 1, 16, w);
  }

  // ---------------------------------------------------------------------
  // Zero-digit success
  // ---------------------------------------------------------------------

  /**
   * When the first byte the digit loop examines is not a digit of the
   * chosen base, the call succeeds with value 0 and the end pointer at that
   * byte: the "some digit was consumed" flag is never cleared.
   */
  lemma NoDigitIsZero(s: seq<char>, str: nat, base: int, w: nat)
    requires At(s, str) != NUL && DetectBase(s, str, base).Some?
    requires !Accepts(At(s, DetectBase(s, str, base).value.ptr), DetectBase(s, str, base).value.base)
    ensures Parse(s, str, base, w) == Parsed(0, DetectBase(s, str, base).value.ptr)
  {
    var st := DetectBase(s, str, base).value;
    assert Exact(s, st.ptr, st.ptr, st.base) == 0;
    ModUnique(0, Pow2(w), 0, 0);
    ScanStops(s, st.ptr, st.ptr, st.base, w);
  }

  /** With an explicit base, a first byte that is no digit of it gives 0 at the start of the string. */
  lemma NoDigitExplicitBase(s: seq<char>, str: nat, base: int, w: nat)
    requires base != 0 && At(s, str) != NUL && !Accepts(At(s, str), base)
    ensures Parse(s, str, base, w) == Parsed(0, str)
  {
    NoDigitIsZero(s, str, base, w);
  }

  // ---------------------------------------------------------------------
  // Value and overflow
  // ---------------------------------------------------------------------

  /**
   * The Horner fold read backwards: the last digit of a run is its exact
   * value modulo the base, and the digits before it are the quotient.
   */
  lemma ExactLastDigit(s: seq<char>, p: nat, k: nat, b: int)
    requires p < k && DigitRun(s, p, k, b) && b >= 1
    ensures Exact(s, p, k, b) % b == DigitValue(At(s, k - 1))
    ensures Exact(s, p, k, b) / b == Exact(s, p, k - 1, b)
  {
    assert Accepts(At(s, k - 1), b);
    ModUnique(Exact(s, p, k, b), b, Exact(s, p, k - 1, b), DigitValue(At(s, k - 1)));
  }

  /** Appending a digit never lowers the exact value, since the base is at least 1. */
  lemma ExactGrows(s: seq<char>, p: nat, k: nat, b: int)
    requires p <= k && DigitRun(s, p, k + 1, b)
    ensures Exact(s, p, k, b) <= Exact(s, p, k + 1, b)
  {
    var v := Exact(s, p, k, b);
    assert Accepts(At(s, k), b);
    MulNonneg(v, b - 1);
    assert Exact(s, p, k + 1, b) == v * b + DigitValue(At(s, k));
    assert v * b == v * (b - 1) + v;
  }

  /**
   * While the exact value of the digits read so far fits in W bits, no
   * step has wrapped.
   */
  lemma {:induction false} NoWrapWhileFits(s: seq<char>, p: nat, k: nat, b: int, w: nat)
    requires p <= k && DigitRun(s, p, k, b) && Exact(s, p, k, b) < Pow2(w)
    ensures forall j :: p <= j < k ==> !WrapAt(s, p, j, b, w)
    decreases k - p
  {
    if k > p {
      ExactGrows(s, p, k - 1, b);
      NoWrapWhileFits(s, p, k - 1, b, w);
      var lo, hi := Exact(s, p, k - 1, b), Exact(s, p, k, b);
      ModUnique(lo, Pow2(w), 0, lo);
      ModUnique(hi, Pow2(w), 0, hi);
      assert !WrapAt(s, p, k - 1, b, w);
    }
  }

  /**
   * ERANGE is never a false alarm: a step the overflow test catches is one
   * whose exact value no longer fits in W bits.
   */
  lemma WrapMeansOverflow(s: seq<char>, p: nat, k: nat, b: int, w: nat)
    requires p <= k && DigitRun(s, p, k + 1, b) && WrapAt(s, p, k, b, w)
    ensures Exact(s, p, k + 1, b) >= Pow2(w)
  {
    if Exact(s, p, k + 1, b) < Pow2(w) {
      NoWrapWhileFits(s, p, k + 1, b, w);
      assert false;
    }
  }

  /**
   * When the whole run of digits fits in W bits, the call succeeds with the
   * exact value of the run and stops at the first byte after it.
   */
  lemma ScanWhenFits(s: seq<char>, p: nat, b: int, w: nat)
    requires Exact(s, p, RunEnd(s, p, b), b) < Pow2(w)
    ensures Scan(s, p, b, w) == Parsed(Exact(s, p, RunEnd(s, p, b), b), RunEnd(s, p, b))
  {
    var e := RunEnd(s, p, b);
    NoWrapWhileFits(s, p, e, b, w);
    ModUnique(Exact(s, p, e, b), Pow2(w), 0, Exact(s, p, e, b));
    ScanStops(s, p, e, b, w);
  }

  /** ERANGE from the digit loop means the run's exact value exceeds W bits. */
  lemma RangeErrorMeansOverflow(s: seq<char>, p: nat, b: int, w: nat)
    requires Scan(s, p, b, w) == OutOfRange
    ensures Exact(s, p, RunEnd(s, p, b), b) >= Pow2(w)
  {
    if Exact(s, p, RunEnd(s, p, b), b) < Pow2(w) {
      ScanWhenFits(s, p, b, w);
    }
  }

  // ---------------------------------------------------------------------
  // Round trip through the canonical rendering
  // ---------------------------------------------------------------------

  /** The canonical rendering of v in base b: most significant digit first, lower-case letters. */
  function Render(v: nat, b: nat): (r: seq<char>)
    requires 2 <= b <= 36
    ensures |r| >= 1
    decreases v
  {
    if v < b then [DigitChar(v)]
    else
      DivStep(v, b);
      Render(v / b, b) + [DigitChar(v % b)]
  }

  /** Exact reads only the bytes of its range: equal bytes give equal values, wherever they sit. */
  lemma {:induction false} ExactShift(s: seq<char>, p: nat, t: seq<char>, q: nat, n: nat, b: int)
    requires DigitRun(s, p, p + n, b)
    requires forall i :: p <= i < p + n ==> At(s, i) == At(t, i - p + q)
    ensures DigitRun(t, q, q + n, b) && Exact(s, p, p + n, b) == Exact(t, q, q + n, b)
  {
    if n > 0 {
      ExactShift(s, p, t, q, n - 1, b);
      assert At(s, p + n - 1) == At(t, q + n - 1);
    }
  }

  /** The exact value of a rendering is the rendered number. */
  lemma {:induction false} RenderValue(v: nat, b: nat)
    requires 2 <= b <= 36
    ensures DigitRun(Render(v, b), 0, |Render(v, b)|, b)
    ensures Exact(Render(v, b), 0, |Render(v, b)|, b) == v
    decreases v
  {
    var r := Render(v, b);
    if v < b {
      assert Accepts(r[0], b);
      assert Exact(r, 0, 1, b) == Exact(r, 0, 0, b) * b + DigitValue(r[0]);
    } else {
      DivStep(v, b);
      var hi, c := Render(v / b, b), DigitChar(v % b);
      RenderValue(v / b, b);
      assert r == hi + [c];
      ExactAppend(hi, c, b);
    }
  }

  /** Appending one accepted byte c to a run multiplies its value by the base and adds c's digit value. */
  lemma ExactAppend(r: seq<char>, c: char, b: int)
    requires DigitRun(r, 0, |r|, b) && Accepts(c, b)
    ensures DigitRun(r + [c], 0, |r| + 1, b)
    ensures Exact(r + [c], 0, |r|, b) == Exact(r, 0, |r|, b)
    ensures Exact(r + [c], 0, |r| + 1, b) == Exact(r, 0, |r|, b) * b + DigitValue(c)
  {
    var s := r + [c];
    assert forall i :: 0 <= i < |r| ==> At(r, i) == At(s, i);
    ExactShift(r, 0, s, 0, |r|, b);
    assert At(s, |r|) == c;
  }

  /** A rendering of a nonzero number does not start with '0'. */
  lemma {:induction false} RenderLeadingDigit(v: nat, b: nat)
    requires 2 <= b <= 36 && v > 0
    ensures Render(v, b)[0] != '0'
    decreases v
  {
    if v >= b {
      DivStep(v, b);
      var hi := Render(v / b, b);
      RenderLeadingDigit(v / b, b);
      assert Render(v, b)[0] == hi[0];
    } else {
      assert Render(v, b)[0] == DigitChar(v);
    }
  }

  /** A string of base-b digits whose value fits in W bits parses to that value, consuming it all. */
  lemma ParseDigitString(s: seq<char>, b: nat, w: nat)
    requires 2 <= b <= 36 && |s| >= 1
    requires DigitRun(s, 0, |s|, b) && Exact(s, 0, |s|, b) < Pow2(w)
    ensures Parse(s, 0, b, w) == Parsed(Exact(s, 0, |s|, b), |s|)
  {
    assert Accepts(At(s, 0), b);
    ScanAfterPrefix([], s, b, w);
    assert [] + s == s;
  }

  /**
   * Parsing the rendering of any W-bit value in an explicit base 2..36
   * gives that value back and consumes the whole string.
   */
  lemma RoundTrip(v: nat, b: nat, w: nat)
    requires 2 <= b <= 36 && v < Pow2(w)
    ensures Parse(Render(v, b), 0, b, w) == Parsed(v, |Render(v, b)|)
  {
    RenderValue(v, b);
    ParseDigitString(Render(v, b), b, w);
  }

  /** A string of digits after any prefix scans to the value it has on its own, up to the end of the string. */
  lemma ScanAfterPrefix(pre: seq<char>, r: seq<char>, b: nat, w: nat)
    requires 2 <= b <= 36 && DigitRun(r, 0, |r|, b) && Exact(r, 0, |r|, b) < Pow2(w)
    ensures Scan(pre + r, |pre|, b, w) == Parsed(Exact(r, 0, |r|, b), |pre| + |r|)
  {
    var s, p, n := pre + r, |pre|, |r|;
    forall i | 0 <= i < n
      ensures At(r, i) == At(s, i - 0 + p)
    {
      assert s[i + p] == r[i];
    }
    ExactShift(r, 0, s, p, n, b);
    RunEndBeyond(s, p, p + n, b);
    ScanWhenFits(s, p, b, w);
  }

  /** "0x" and a string of hex digits whose value fits in W bits parse to that value under auto-detection. */
  lemma ParseHexString(r: seq<char>, w: nat)
    requires |r| >= 1 && DigitRun(r, 0, |r|, 16) && Exact(r, 0, |r|, 16) < Pow2(w)
    ensures Parse("0x" + r, 0, 0, w) == Parsed(Exact(r, 0, |r|, 16), 2 + |r|)
  {
    var s := "0x" + r;
    assert Accepts(At(r, 0), 16);
    assert At(s, 2) == r[0];
    HexPrefixSkipsTwo(s, 0, w);
    ScanAfterPrefix("0x", r, 16, w);
  }

  /** Under auto-detection "0x" followed by the hex rendering of a W-bit value gives it back. */
  lemma RoundTripHexPrefix(v: nat, w: nat)
    requires v < Pow2(w)
    ensures Parse("0x" + Render(v, 16), 0, 0, w) == Parsed(v, 2 + |Render(v, 16)|)
  {
    RenderValue(v, 16);
    ParseHexString(Render(v, 16), w);
  }

  /** Under auto-detection the decimal rendering of a nonzero W-bit value gives it back. */
  lemma RoundTripDecimal(v: nat, w: nat)
    requires 0 < v < Pow2(w)
    ensures Parse(Render(v, 10), 0, 0, w) == Parsed(v, |Render(v, 10)|)
  {
    RenderLeadingDigit(v, 10);
    OtherFirstByteIsDecimal(Render(v, 10), 0, w);
    RoundTrip(v, 10, w);
  }

  /** ... but the rendering of zero, "0", is rejected under auto-detection. */
  lemma ZeroRenderingRejected(w: nat)
    ensures Render(0, 10) == "0"
    ensures Parse(Render(0, 10), 0, 0, w) == Invalid
  {
    ZeroOctalAndBarePrefixRejected(w);
  }

  // ---------------------------------------------------------------------
  // The overflow test is incomplete
  // ---------------------------------------------------------------------

  /**
   * A step whose wrapped result is not below the previous value goes
   * unreported: v followed by one more digit '0' parses as (v * b) mod 2^W
   * even though v * b does not fit in W bits.
   */
  lemma UnreportedWrap(v: nat, b: nat, w: nat)
    requires 2 <= b <= 36 && v < Pow2(w) && (v * b) % Pow2(w) >= v
    ensures Parse(Render(v, b) + "0", 0, b, w) == Parsed((v * b) % Pow2(w), |Render(v, b)| + 1)
  {
    RenderValue(v, b);
    WrapAfterDigits(Render(v, b), b, w);
  }

  /** The same, for any digit string r of value v: r followed by '0' parses as (v * b) mod 2^W. */
  lemma WrapAfterDigits(r: seq<char>, b: nat, w: nat)
    requires 2 <= b <= 36 && DigitRun(r, 0, |r|, b)
    requires Exact(r, 0, |r|, b) < Pow2(w)
    requires (Exact(r, 0, |r|, b) * b) % Pow2(w) >= Exact(r, 0, |r|, b)
    ensures Parse(r + "0", 0, b, w) == Parsed((Exact(r, 0, |r|, b) * b) % Pow2(w), |r| + 1)
  {
    var s := r + ['0'];
    assert r + "0" == s;
    ExactAppend(r, '0', b);
    LastStepUncaught(s, |r|, b, w);
    assert Accepts(At(s, 0), b);
  }

  /**
   * A run of n + 1 digits whose first n fit in W bits, and whose last step
   * wraps to a value no smaller than before, succeeds with the wrapped value.
   */
  lemma LastStepUncaught(s: seq<char>, n: nat, b: int, w: nat)
    requires DigitRun(s, 0, n + 1, b) && !Accepts(At(s, n + 1), b)
    requires Exact(s, 0, n, b) < Pow2(w)
    requires Exact(s, 0, n + 1, b) % Pow2(w) >= Exact(s, 0, n, b)
    ensures Scan(s, 0, b, w) == Parsed(Exact(s, 0, n + 1, b) % Pow2(w), n + 1)
  {
    NoWrapWhileFits(s, 0, n, b, w);
    ModUnique(Exact(s, 0, n, b), Pow2(w), 0, Exact(s, 0, n, b));
    assert !WrapAt(s, 0, n, b, w);
    ScanStops(s, 0, n + 1, b, w);
  }

  /** 10 * 2^(W-3) = 2^W + 2^(W-2), so it wraps to 2^(W-2) = 2 * 2^(W-3). */
  lemma WrapTenTimes(v: nat, w: nat)
    requires w >= 3 && v == Pow2(w - 3)
    ensures v < Pow2(w) && v * 10 >= Pow2(w)
    ensures (v * 10) % Pow2(w) == 2 * v
  {
    assert Pow2(w - 2) == 2 * v;
    assert Pow2(w - 1) == 4 * v;
    assert Pow2(w) == 8 * v;
    ModUnique(v * 10, Pow2(w), 1, 2 * v);
  }

  /**
   * For every width W >= 3, base 10: v = 2^(W-3) followed by a '0', whose
   * value 10 * 2^(W-3) does not fit in W bits, succeeds with 2 * v instead
   * of ERANGE. For W = 64 this is the string "23058430092136939520".
   */
  lemma UnreportedWrapTen(v: nat, w: nat)
    requires w >= 3 && v == Pow2(w - 3)
    ensures v * 10 >= Pow2(w)
    ensures Parse(Render(v, 10) + "0", 0, 10, w) == Parsed(2 * v, |Render(v, 10)| + 1)
  {
    WrapTenTimes(v, w);
    UnreportedWrap(v, 10, w);
  }

  // ---------------------------------------------------------------------
  // Signed results
  // ---------------------------------------------------------------------

  /** Negating a magnitude of at most 2^(W-1) gives the negative number in the signed type. */
  lemma NegateInRange(v: nat, w: nat)
    requires 1 <= w && v <= Pow2(w - 1)
    ensures v < Pow2(w) && ToSigned(Negate(v, w), w) == -(v as int)
  {
  }

  /**
   * There is no signed range check: a magnitude above 2^(W-1) after a '-'
   * yields a positive signed value.
   */
  lemma NegateOutOfRange(v: nat, w: nat)
    requires 1 <= w && Pow2(w - 1) < v < Pow2(w)
    ensures ToSigned(Negate(v, w), w) == Pow2(w) - v > 0
  {
  }
}
