/**
 * The Solaris ddi_strtoul/ddi_strtol/ddi_strtoull/ddi_strtoll family of
 * module/spl/spl-generic.c, generated in C from two macros:
 * define_ddi_strtoux (the unsigned core) and define_ddi_strtox (the signed
 * wrapper around it).
 *
 * The input string is a buffer `s` and a start index `str`; every pointer
 * into it (`ptr`, `*endptr`) is an absolute index into `s`. The out
 * parameters `*result` and `*endptr` are passed in with the caller's
 * current values and returned with their new values, so that "not written"
 * is stated as "returned unchanged". A value of a W-bit unsigned C type is
 * a natural number below 2^W.
 */
module StrTo {
  import opened Ctype
  import opened Arith
  import opened Platform

  const EINVAL: int := 22
  const ERANGE: int := 34

  datatype Option<T> = None | Some(value: T)

  /** The caller's `char **endptr`: NULL, or a pointer whose target currently holds index `target`. */
  datatype EndPtr = Null | Ptr(target: nat)

  /** Where the digit loop starts after base detection, and the base it uses. */
  datatype Start = Start(base: int, ptr: nat)

  /** What a call of the unsigned core amounts to. */
  datatype Outcome = Parsed(value: nat, end: nat) | Invalid | OutOfRange

  /** Every byte in [p, k) is a digit of base b. */
  ghost predicate DigitRun(s: seq<char>, p: nat, k: nat, b: int) {
    forall i :: p <= i < k ==> Accepts(At(s, i), b)
  }

  /**
   * The exact (unbounded) Horner value of the digits in [p, k):
   * d(p) * b^(k-p-1) + ... + d(k-1).
   */
  ghost function Exact(s: seq<char>, p: nat, k: nat, b: int): (v: nat)
    requires p <= k && DigitRun(s, p, k, b)
    decreases k - p
  {
    if k == p then 0
    else
      var v, d := Exact(s, p, k - 1, b), DigitValue(At(s, k - 1));
      MulNonneg(v, b);
      v * b + d
  }

  /** The end of the maximal run of base-b digits that starts at p. */
  ghost function RunEnd(s: seq<char>, p: nat, b: int): (e: nat)
    ensures p <= e
    ensures DigitRun(s, p, e, b)
    ensures !Accepts(At(s, e), b)
    decreases |s| - p
  {
    if Accepts(At(s, p), b) then RunEnd(s, p + 1, b) else p
  }

  /**
   * The W-bit accumulator decreases at the step that consumes the digit at
   * k: the overflow test `last_value > value`, stated on exact values.
   */
  ghost predicate WrapAt(s: seq<char>, p: nat, k: nat, b: int, w: nat): (r: bool)
    requires p <= k && DigitRun(s, p, k + 1, b)
    ensures r <==> (Exact(s, p, k, b) % Pow2(w) * b + DigitValue(At(s, k))) % Pow2(w) < Exact(s, p, k, b) % Pow2(w)
  {
    AccumulateStep(s, p, k, b, w);
    Exact(s, p, k + 1, b) % Pow2(w) < Exact(s, p, k, b) % Pow2(w)
  }

  /**
   * Base detection of the unsigned core, for an input whose first byte is
   * not NUL. The octal test compares the second byte with the integer 8,
   * not with '8', exactly as the C source does.
   */
  ghost function DetectBase(s: seq<char>, str: nat, base: int): (r: Option<Start>)
    ensures r.None? <==>
      base == 0 && At(s, str) == '0' && !(ToLower(At(s, str + 1)) == 'x' && IsXDigit(At(s, str + 2)))
    ensures r.Some? ==> r.value.base != 0
    ensures r.Some? && base != 0 ==> r.value == Start(base, str)
    ensures r.Some? && base == 0 && At(s, str) == '0' ==> r.value == Start(16, str + 2)
    ensures r.Some? && base == 0 && At(s, str) != '0' ==> r.value == Start(10, str)
  {
    var second: nat, third: nat := str + 1, str + 2;
    if base != 0 then Some(Start(base, str))
    else if At(s, str) == '0' then
      if ToLower(At(s, second)) == 'x' && IsXDigit(At(s, third)) then Some(Start(16, third))
      else if At(s, second) >= '0' && At(s, second) as int < 8 then Some(Start(8, second))
      else None
    else Some(Start(10, str))
  }

  /**
   * The digit loop from index p in base b at width w: it consumes the
   * maximal run of base-b digits, fails with ERANGE if some step makes the
   * W-bit accumulator smaller than it was, and otherwise yields the run's
   * Horner value reduced modulo 2^W and the index of the first unconsumed
   * byte.
   */
  ghost function Scan(s: seq<char>, p: nat, b: int, w: nat): (r: Outcome)
    ensures r.Parsed? ==> r.value < Pow2(w) && p <= r.end
    ensures r.Parsed? ==> DigitRun(s, p, r.end, b) && !Accepts(At(s, r.end), b)
    ensures r != Invalid
  {
    var e := RunEnd(s, p, b);
    if exists k :: p <= k < e && WrapAt(s, p, k, b, w) then OutOfRange
    else Parsed(Exact(s, p, e, b) % Pow2(w), e)
  }

  /**
   * The meaning of one call of the unsigned core at width w: EINVAL for an
   * empty string or a rejected prefix, and otherwise the digit loop from
   * the index and in the base that prefix detection chose.
   */
  ghost function Parse(s: seq<char>, str: nat, base: int, w: nat): (r: Outcome)
    ensures At(s, str) == NUL ==> r == Invalid
    ensures r.Parsed? ==> r.value < Pow2(w) && str <= r.end
  {
    if At(s, str) == NUL then Invalid
    else match DetectBase(s, str, base)
      case None => Invalid
      case Some(st) => Scan(s, st.ptr, st.base, w)
  }

  /** The status code returned for an outcome. */
  function Rc(o: Outcome): int {
    match o
    case Parsed(_, _) => 0
    case Invalid => EINVAL
    case OutOfRange => ERANGE
  }

  /** Writing index `at` through `endptr`, unless it is NULL. */
  function Store(endptr: EndPtr, at: nat): EndPtr {
    if endptr.Null? then Null else Ptr(at)
  }

  /**
   * Two's-complement negation of a W-bit pattern (the signed wrapper's
   * `-*result`). In C this negates a signed value, and for the pattern of
   * the most negative value (2^(W-1)) that is a signed overflow the
   * language leaves undefined; the model gives the wrap-around result the
   * kernel's -fno-strict-overflow build produces, which is the same
   * pattern.
   */
  function Negate(v: nat, w: nat): (r: nat)
    requires v < Pow2(w)
    ensures r < Pow2(w)
    ensures (r + v) % Pow2(w) == 0
  {
    ModUnique(Pow2(w), Pow2(w), 1, 0);
    if v == 0 then 0 else Pow2(w) - v
  }

  /** The value a W-bit pattern denotes in a signed C type of the same width. */
  function ToSigned(v: nat, w: nat): (r: int)
    requires 1 <= w && v < Pow2(w)
    ensures -(Pow2(w - 1) as int) <= r < Pow2(w - 1)
    ensures (r - v) % Pow2(w) == 0
  {
    ModUnique(0, Pow2(w), 0, 0);
    ModUnique(-(Pow2(w) as int), Pow2(w), -1, 0);
    if v < Pow2(w - 1) then v else v - Pow2(w)
  }

  /** The contract of the unsigned core: status, and what is written through each out pointer. */
  ghost predicate UnsignedPost(s: seq<char>, str: nat, endptr: EndPtr, base: int, result: nat, w: nat,
                               rc: int, endOut: EndPtr, resultOut: nat)
  {
    var o := Parse(s, str, base, w);
    && rc == Rc(o)
    && (o.Parsed? ==> resultOut == o.value && endOut == Store(endptr, o.end))
    && (!o.Parsed? ==> resultOut == result && endOut == endptr)
  }

  /**
   * The signed wrapper's precondition: `*endptr` is read back after a
   * successful parse of a negative number, so endptr must not be NULL then.
   */
  ghost predicate SignedPre(s: seq<char>, str: nat, endptr: EndPtr, base: int, w: nat) {
    At(s, str) == '-' && Parse(s, str + 1, base, w).Parsed? ==> endptr.Ptr?
  }

  /**
   * The contract of the signed wrapper. Without a leading '-' it is the
   * unsigned core's. With one, the core's status is returned and errors
   * write nothing; a success that consumed no digit reports the start of
   * the string and value 0; otherwise the value is negated (on the bit
   * pattern, with no signed range check).
   */
  ghost predicate SignedPost(s: seq<char>, str: nat, endptr: EndPtr, base: int, result: nat, w: nat,
                             rc: int, endOut: EndPtr, resultOut: nat)
  {
    if At(s, str) != '-' then UnsignedPost(s, str, endptr, base, result, w, rc, endOut, resultOut)
    else
      var o := Parse(s, str + 1, base, w);
      && rc == Rc(o)
      && (!o.Parsed? ==> resultOut == result && endOut == endptr)
      && (o.Parsed? && o.end == str + 1 ==> resultOut == 0 && endOut == Ptr(str))
      && (o.Parsed? && o.end != str + 1 ==> resultOut == Negate(o.value, w) && endOut == Ptr(o.end))
  }

  /** One step of the digit loop keeps the accumulator equal to the exact value reduced modulo 2^W. */
  lemma AccumulateStep(s: seq<char>, p: nat, k: nat, b: int, w: nat)
    requires p <= k && DigitRun(s, p, k + 1, b)
    ensures (Exact(s, p, k, b) % Pow2(w) * b + DigitValue(At(s, k))) % Pow2(w)
            == Exact(s, p, k + 1, b) % Pow2(w)
  {
    var a, d := Exact(s, p, k, b), DigitValue(At(s, k));
    assert Exact(s, p, k + 1, b) == a * b + d;
    ModStep(a, b, d, Pow2(w));
  }

  /** A wrap at a digit of the run makes the digit loop fail with ERANGE. */
  lemma ScanOverflows(s: seq<char>, p: nat, k: nat, b: int, w: nat)
    requires p <= k && DigitRun(s, p, k + 1, b) && WrapAt(s, p, k, b, w)
    ensures Scan(s, p, b, w) == OutOfRange
  {
    RunEndBeyond(s, p, k + 1, b);
  }

  /** Reaching a non-digit with no wrap so far makes the digit loop succeed there. */
  lemma ScanStops(s: seq<char>, p: nat, k: nat, b: int, w: nat)
    requires p <= k && DigitRun(s, p, k, b) && !Accepts(At(s, k), b)
    requires forall j :: p <= j < k ==> !WrapAt(s, p, j, b, w)
    ensures Scan(s, p, b, w) == Parsed(Exact(s, p, k, b) % Pow2(w), k)
  {
    RunEndBeyond(s, p, k, b);
  }

  /** A run of k - p digits from p ends at k or later, and exactly at k if the byte at k is no digit. */
  lemma RunEndBeyond(s: seq<char>, p: nat, k: nat, b: int)
    requires p <= k && DigitRun(s, p, k, b)
    ensures k <= RunEnd(s, p, b)
    ensures !Accepts(At(s, k), b) ==> RunEnd(s, p, b) == k
  {
  }

  /**
   * The prefix-detection block of define_ddi_strtoux, for an input whose
   * first byte is not NUL: it returns 0 with the base to use and the index
   * of the first digit, or EINVAL.
   */
  method DetectPrefix(s: seq<char>, str: nat, base: int) returns (rc: int, b: int, ptr: nat)
    ensures DetectBase(s, str, base).None? ==> rc == EINVAL
    ensures DetectBase(s, str, base).Some? ==> rc == 0 && DetectBase(s, str, base).value == Start(b, ptr)
  {
    var cur: int := str;
    rc, b := 0, base;
    if b == 0 {
      if At(s, str) == '0' {
        if ToLower(At(s, str + 1)) == 'x' && IsXDigit(At(s, str + 2)) {
          b := 16; // a hex prefix
          cur := cur + 2;
        } else if At(s, str + 1) >= '0' && At(s, str + 1) as int < 8 {
          b := 8; // never reached: see OctalTestNeverHolds
          cur := cur + 1;
        } else {
          rc := EINVAL;
        }
      } else {
        b := 10; // no prefix: base ten
      }
    }
    ptr := cur;
  }

  /**
   * define_ddi_strtoux at width w: the unsigned core. The digit loop keeps
   * `value` as the W-bit accumulator; `value * base` multiplies by the base
   * converted to the unsigned type, which is the same modulo 2^W.
   */
  method StrToUx(s: seq<char>, str: nat, endptr: EndPtr, base: int, result: nat, w: nat)
    returns (rc: int, endOut: EndPtr, resultOut: nat)
    ensures UnsignedPost(s, str, endptr, base, result, w, rc, endOut, resultOut)
  {
    endOut, resultOut := endptr, result;
    var value: nat := 0;
    var lastValue: nat;
    var ptr: nat := str;
    var flag := 1;
    var digit: int;
    var b: int;

    // strlen(ptr) == 0
    if At(s, ptr) == NUL {
      return EINVAL, endOut, resultOut;
    }

    // base 0: the prefix chooses the base
    var detected;
    detected, b, ptr := DetectPrefix(s, str, base);
    if detected != 0 {
      return EINVAL, endOut, resultOut;
    }
    assert Parse(s, str, base, w) == Scan(s, ptr, b, w);

    ghost var p := ptr;
    ModUnique(0, Pow2(w), 0, 0);
    while true
      invariant p <= ptr && DigitRun(s, p, ptr, b)
      invariant value == Exact(s, p, ptr, b) % Pow2(w)
      invariant forall k :: p <= k < ptr ==> !WrapAt(s, p, k, b, w)
      invariant flag == 1
      decreases |s| - ptr
    {
      if IsDigit(At(s, ptr)) {
        digit := At(s, ptr) as int - '0' as int;
      } else if IsAlpha(At(s, ptr)) {
        digit := ToLower(At(s, ptr)) as int - 'a' as int + 10;
      } else {
        break;
      }

      if digit >= b {
        break;
      }

      lastValue := value;
      AccumulateStep(s, p, ptr, b, w);
      value := (value * b + digit) % Pow2(w);
      if lastValue > value { // the accumulator went down
        ScanOverflows(s, p, ptr, b, w);
        return ERANGE, endOut, resultOut;
      }
      assert !WrapAt(s, p, ptr, b, w);

      flag := 1;
      ptr := ptr + 1;
    }
    ScanStops(s, p, ptr, b, w);

    if flag != 0 {
      resultOut := value;
    }
    if endptr.Ptr? {
      endOut := Ptr(if flag != 0 then ptr else str);
    }
    return 0, endOut, resultOut;
  }

  /** A success that ends where the string starts consumed nothing and has value 0. */
  lemma NoDigitsNoValue(s: seq<char>, str: nat, base: int, w: nat)
    requires Parse(s, str, base, w).Parsed? && Parse(s, str, base, w).end == str
    ensures Parse(s, str, base, w).value == 0
  {
    var st := DetectBase(s, str, base).value;
    assert RunEnd(s, st.ptr, st.base) == str;
    ModUnique(0, Pow2(w), 0, 0);
  }

  /** define_ddi_strtox at width w: the signed wrapper around the unsigned core. */
  method StrToX(s: seq<char>, str: nat, endptr: EndPtr, base: int, result: nat, w: nat)
    returns (rc: int, endOut: EndPtr, resultOut: nat)
    requires SignedPre(s, str, endptr, base, w)
    ensures SignedPost(s, str, endptr, base, result, w, rc, endOut, resultOut)
  {
    if At(s, str) == '-' {
      rc, endOut, resultOut := StrToUx(s, str + 1, endptr, base, result, w);
      if rc == 0 {
        if endOut.target == str + 1 {
          NoDigitsNoValue(s, str + 1, base, w);
          endOut := Ptr(str);
        } else {
          resultOut := Negate(resultOut, w);
        }
      }
    } else {
      rc, endOut, resultOut := StrToUx(s, str, endptr, base, result, w);
    }
  }

  /** ddi_strtoul: the unsigned core at the width of `unsigned long`. */
  method StrToUl(arch: Arch, s: seq<char>, str: nat, endptr: EndPtr, base: int, result: nat)
    returns (rc: int, endOut: EndPtr, resultOut: nat)
    ensures UnsignedPost(s, str, endptr, base, result, BitsPerLong(arch), rc, endOut, resultOut)
  {
    rc, endOut, resultOut := StrToUx(s, str, endptr, base, result, BitsPerLong(arch));
  }

  /** ddi_strtol: the signed wrapper at the width of `long`; results are bit patterns. */
  method StrToL(arch: Arch, s: seq<char>, str: nat, endptr: EndPtr, base: int, result: nat)
    returns (rc: int, endOut: EndPtr, resultOut: nat)
    requires SignedPre(s, str, endptr, base, BitsPerLong(arch))
    ensures SignedPost(s, str, endptr, base, result, BitsPerLong(arch), rc, endOut, resultOut)
  {
    rc, endOut, resultOut := StrToX(s, str, endptr, base, result, BitsPerLong(arch));
  }

  /** ddi_strtoull: the unsigned core at the width of `unsigned long long`. */
  method StrToUll(s: seq<char>, str: nat, endptr: EndPtr, base: int, result: nat)
    returns (rc: int, endOut: EndPtr, resultOut: nat)
    ensures UnsignedPost(s, str, endptr, base, result, LongLongBits, rc, endOut, resultOut)
  {
    rc, endOut, resultOut := StrToUx(s, str, endptr, base, result, LongLongBits);
  }

  /** ddi_strtoll: the signed wrapper at the width of `long long`; results are bit patterns. */
  method StrToLl(s: seq<char>, str: nat, endptr: EndPtr, base: int, result: nat)
    returns (rc: int, endOut: EndPtr, resultOut: nat)
    requires SignedPre(s, str, endptr, base, LongLongBits)
    ensures SignedPost(s, str, endptr, base, result, LongLongBits, rc, endOut, resultOut)
  {
    rc, endOut, resultOut := StrToX(s, str, endptr, base, result, LongLongBits);
  }
}
