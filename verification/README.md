# A Dafny model of the SPL generic helpers

This project models the core of `module/spl/spl-generic.c`, the generic part of the Solaris Porting Layer (SPL) kernel module of ZFS on Linux. It covers four things:

- **The string-to-integer family.** `ddi_strtoul`, `ddi_strtol`, `ddi_strtoull` and `ddi_strtoll` are generated in C from two macros: `define_ddi_strtoux` is the unsigned core and `define_ddi_strtox` is the signed wrapper.
- **`highbit`.** It returns the 1-based index of the most significant set bit of an `unsigned long`.
- **`zone_get_hostid`.** It reads the host id from the `hw_serial` string.
- **Load and unload.** `spl_init` brings up eight subsystems in order and then sets up the host id and the kallsyms lookup. On failure it unwinds them through its labels `out8` … `out1`. `spl_fini` takes them all down.

Modules:

- `Arith` (arith.dfy): powers of two and Euclidean division facts.
- `Ctype` (ctype.dfy): the ASCII character classes the parsers use. A C string is a `seq<char>`, and every index at or past its end reads as NUL.
- `Platform` (platform.dfy): `BITS_PER_LONG` (32 or 64) and the 64-bit `long long`.
- `StrTo` (strto.dfy): the unsigned core and the signed wrapper as methods. Each is proved against the specification functions `DetectBase`, `Scan` and `Parse`.
  - `*result` and `*endptr` are passed in with the caller's current values and returned with the new ones. "Not written" is therefore "returned unchanged".
  - Pointers are indices into one buffer.
  - A value of a W-bit unsigned type is a natural number below 2^W.
  - The digit loop's accumulator is the exact Horner value reduced modulo 2^W.
- `StrToFacts` (strto_facts.dfy): what the parsers do, as lemmas about `Parse`:
  - base selection;
  - the empty digit run;
  - the overflow test;
  - round trips through a canonical rendering;
  - the overflows the test misses;
  - negation in the signed wrapper.
- `HighBit` (highbit.dfy): `highbit` as a method proved to return the bit length of its argument.
- `Hostid` (hostid.dfy): `zone_get_hostid` over the unsigned-long parser.
- `SplInit` (spl_init.dfy): `spl_init` and `spl_fini`.
  - Every subsystem call is opaque. Its return code is an input (`Env`), and the calls made are recorded, in order, as a trace.
  - `spl_init` is split at its labels:
    - `Startup` is everything up to the final `RETURN`. A `GOTO(outN, …)` leaves it with N.
    - `TakeDown` is the code under the labels, which falls through from `outN` to `out1`.
  - Lemmas show that teardown is last-in, first-out, and that a failed load takes down exactly what it brought up.

Behaviour of the code as written:

- **The octal branch is dead.** Auto-detection compares `str[1] < 8` with the integer 8, not with `'8'`.
  - So under base 0, `"017"`, `"0"` and `"0x"` all return EINVAL.
  - `"0x1f"` selects base 16.
  - Any other first byte selects base 10.
- **A parse that consumes no digit succeeds.** `flag` is never cleared, so the call returns 0 with value 0, and `*endptr` points at the first byte that is not a digit.
- **The overflow test is incomplete.** It fires only when the W-bit accumulator decreases. ERANGE always means the exact value does not fit. A digit step that wraps to a value no smaller than before goes unreported: at W = 64, `"23058430092136939520"` parses in base 10 as 2^62.
- **The signed wrapper negates the bit pattern and does no range check.** It reads `*endptr` back, so it needs a non-NULL `endptr` whenever a '-' is followed by a successful parse.

## Model

| member | source | states |
|---|---|---|
| StrTo.DetectBase | module/spl/spl-generic.c:157-172 | A nonzero base is used as given with no skip. Under base 0 the input is rejected exactly when it starts with '0' and has no "0x"/"0X" plus hex digit. With that prefix the base is 16 and two bytes are skipped. Any other first byte gives base 10. |
| StrTo.Scan | module/spl/spl-generic.c:174-192 | The digit loop's success: the value is below 2^W, and the end is the first byte after a run of base digits. The loop never yields EINVAL. |
| StrTo.Parse | module/spl/spl-generic.c:154-192 | An empty string is EINVAL. A success yields a W-bit value and an end at or after the start. |
| Ctype.DigitValue | module/spl/spl-generic.c:175-178 | The digit value of an alphanumeric byte is in 0..35. It is at most 9 exactly for a decimal digit and at most 15 exactly for a hex digit, so `digit >= base` rejects exactly the bytes that are no digit of the base. |
| StrTo.RunEnd | module/spl/spl-generic.c:174-183 | Where the digit loop stops: every byte from the start to the returned index is a digit of the base, and the byte there is not. |
| StrTo.WrapAt | module/spl/spl-generic.c:185-188 | The overflow test `last_value > value`: the accumulator before the step exceeds `(last_value * base + digit) mod 2^W`, stated on the exact Horner values. |
| StrToFacts.ExactLastDigit | module/spl/spl-generic.c:185-186 | The exact Horner value of a digit run: its last digit is the value modulo the base, and the digits before it are the quotient. |
| StrTo.Negate | module/spl/spl-generic.c:215 | `-*result` on a W-bit pattern: the result is below 2^W and adds to the operand to give 0 modulo 2^W. |
| StrTo.ToSigned | module/spl/spl-generic.c:225 | Reading a W-bit pattern as a signed value gives a number in [-2^(W-1), 2^(W-1)) that is congruent to the pattern modulo 2^W. |
| StrTo.AccumulateStep | module/spl/spl-generic.c:185-186 | `value = value * base + digit` on the reduced accumulator equals the exact Horner value, one digit longer, reduced modulo 2^W. |
| StrTo.ScanOverflows | module/spl/spl-generic.c:185-188 | A decrease of the accumulator at any digit of the run makes the loop return ERANGE. |
| StrTo.ScanStops | module/spl/spl-generic.c:174-183 | A non-digit reached with no decrease so far ends the loop there, with the reduced Horner value. |
| StrTo.RunEndBeyond | module/spl/spl-generic.c:174-183 | A run of digits ending at k means the loop reaches k, and stops exactly there when the byte at k is no digit of the base. |
| StrTo.DetectPrefix | module/spl/spl-generic.c:157-172 | The prefix block returns EINVAL exactly when DetectBase rejects. Otherwise it returns the base and first-digit index DetectBase chooses. |
| StrTo.StrToUx | module/spl/spl-generic.c:146-201 | Returns Rc(Parse(...)). On success it writes the value to `*result`, and the end to `*endptr` unless that is NULL. On EINVAL or ERANGE it writes neither. |
| StrTo.NoDigitsNoValue | module/spl/spl-generic.c:190-198 | A success whose end is the start of the string has value 0. |
| StrTo.StrToX | module/spl/spl-generic.c:203-222 | Without a '-' it behaves as the unsigned core. After a '-' it returns the core's status. A success that consumed nothing resets `*endptr` to the '-' and leaves value 0. Any other success negates the pattern. Errors write nothing. Requires a non-NULL `endptr` only when the source dereferences it. |
| StrTo.StrToUl | module/spl/spl-generic.c:224 | ddi_strtoul is the unsigned core at BITS_PER_LONG bits. |
| StrTo.StrToL | module/spl/spl-generic.c:225 | ddi_strtol is the signed wrapper at BITS_PER_LONG bits. |
| StrTo.StrToUll | module/spl/spl-generic.c:226 | ddi_strtoull is the unsigned core at 64 bits. |
| StrTo.StrToLl | module/spl/spl-generic.c:227 | ddi_strtoll is the signed wrapper at 64 bits. |
| StrToFacts.OctalTestNeverHolds | module/spl/spl-generic.c:163 | No byte is both at least '0' and below the integer 8, so base 8 is never chosen. |
| StrToFacts.LeadingZeroNeedsHexPrefix | module/spl/spl-generic.c:158-168 | Under base 0 a leading '0' gives EINVAL if and only if no "0x"/"0X" and hex digit follow. |
| StrToFacts.ZeroOctalAndBarePrefixRejected | module/spl/spl-generic.c:159-167 | "0", "017" and "0x" are EINVAL under base 0. |
| StrToFacts.HexPrefixSkipsTwo | module/spl/spl-generic.c:160-162 | With the hex prefix, a base-0 call is the base-16 call two bytes later. |
| StrToFacts.OtherFirstByteIsDecimal | module/spl/spl-generic.c:169-171 | Any first byte other than '0' makes a base-0 call a base-10 call at the same index. |
| StrToFacts.ExplicitBaseSkipsNoPrefix | module/spl/spl-generic.c:158 | An explicit base skips no prefix: "0x1A" in base 16 is 0, ending at the 'x'. |
| StrToFacts.NoDigitIsZero | module/spl/spl-generic.c:190-198 | With the prefix accepted and no digit at the start of the digits, the call succeeds with 0 and the end at that byte. |
| StrToFacts.NoDigitExplicitBase | module/spl/spl-generic.c:174-198 | With an explicit base and a first byte that is no digit of it, the call succeeds with 0 and the end at the start. |
| StrToFacts.ExactGrows | module/spl/spl-generic.c:186 | Appending a digit never lowers the exact value. |
| StrToFacts.NoWrapWhileFits | module/spl/spl-generic.c:185-188 | While the exact value fits in W bits, no step decreases the accumulator. |
| StrToFacts.WrapMeansOverflow | module/spl/spl-generic.c:185-188 | A step the overflow test catches is one whose exact value does not fit in W bits. |
| StrToFacts.ScanWhenFits | module/spl/spl-generic.c:174-198 | When the whole digit run fits in W bits, the loop returns its exact value and the first byte after it. |
| StrToFacts.RangeErrorMeansOverflow | module/spl/spl-generic.c:185-188 | ERANGE means the run's exact value is at least 2^W. |
| StrToFacts.ParseDigitString | module/spl/spl-generic.c:174-198 | A non-empty base-b digit string whose value fits parses in base b to that value and consumes it all. |
| StrToFacts.RoundTrip | module/spl/spl-generic.c:146-201 | For every W-bit v and base 2..36, parsing the rendering of v in that base gives v back and ends at the end of the string. |
| StrToFacts.ScanAfterPrefix | module/spl/spl-generic.c:174-192 | A digit string after any prefix scans to its own value and ends at the end of the string. |
| StrToFacts.ParseHexString | module/spl/spl-generic.c:158-198 | Under base 0, "0x" plus a fitting hex digit string parses to the digits' value and consumes everything. |
| StrToFacts.RoundTripHexPrefix | module/spl/spl-generic.c:158-198 | Under base 0, "0x" plus the hex rendering of any W-bit value gives the value back. |
| StrToFacts.RoundTripDecimal | module/spl/spl-generic.c:169-198 | Under base 0, the decimal rendering of any nonzero W-bit value gives the value back. |
| StrToFacts.ZeroRenderingRejected | module/spl/spl-generic.c:159-167 | The rendering of 0 is "0", which base 0 rejects with EINVAL. |
| StrToFacts.UnreportedWrap | module/spl/spl-generic.c:185-188 | If v*b wraps to a value no smaller than v, then v's rendering followed by '0' parses as (v*b) mod 2^W with no ERANGE. |
| StrToFacts.WrapAfterDigits | module/spl/spl-generic.c:185-188 | The same holds for any digit string followed by '0'. |
| StrToFacts.LastStepUncaught | module/spl/spl-generic.c:185-188 | A final step that overflows W bits but leaves the accumulator no smaller succeeds with the wrapped value. |
| StrToFacts.UnreportedWrapTen | module/spl/spl-generic.c:185-188 | At every width W >= 3 some decimal string whose value exceeds 2^W parses, without ERANGE, as 2^(W-2). |
| StrToFacts.NegateInRange | module/spl/spl-generic.c:215 | Negating a magnitude of at most 2^(W-1) gives exactly minus that magnitude in the signed type. |
| StrToFacts.NegateOutOfRange | module/spl/spl-generic.c:215 | A magnitude above 2^(W-1) after '-' gives a positive signed result; no range check is done. |
| HighBit.HighBit | module/spl/spl-generic.c:66-95 | highbit returns the bit length of i: 0 for 0, otherwise the position of the most significant set bit. |
| HighBit.HighBitRange | module/spl/spl-generic.c:66-95 | The result is in 0..BITS_PER_LONG. It is 0 exactly for 0, and otherwise h with 2^(h-1) <= i < 2^h. |
| HighBit.BitLengthBounds | module/spl/spl-generic.c:66-95 | The bit length h of a positive n satisfies 2^(h-1) <= n < 2^h, and only 0 has length 0. |
| HighBit.BitLengthUnique | module/spl/spl-generic.c:66-95 | Those bounds determine the bit length. |
| HighBit.BitLengthFits | module/spl/spl-generic.c:66-95 | A value below 2^W has at most W bits. |
| HighBit.UpperHalf | module/spl/spl-generic.c:75-91 | The masked upper half of the bits being inspected is below 2^k. |
| HighBit.Narrow | module/spl/spl-generic.c:75-90 | One test-add-shift block: it adds k and shifts exactly when the masked bits are nonzero, and it keeps the search invariant. |
| HighBit.FieldStep | module/spl/spl-generic.c:75-93 | The masked bits are nonzero exactly when x has more than k bits. Shifting them out keeps the bits still to be counted. |
| HighBit.LastBit | module/spl/spl-generic.c:91-94 | Once one bit is left to inspect, h is the bit length of i. |
| HighBit.ShiftOut | module/spl/spl-generic.c:76 | Shifting a number of more than k bits right by k shortens it by exactly k bits. |
| Hostid.ZoneGetHostid | module/spl/spl-generic.c:314-326 | Returns HostidOf: HW_INVALID_HOSTID when ddi_strtoul of hw_serial in base HW_HOSTID_LEN-1 fails, and otherwise the parsed value. Either one is converted to the uint32_t return type, so the result is always below 2^32. |
| Hostid.HostidOf | module/spl/spl-generic.c:322-325 | The host id is below 2^32. A failed parse gives HW_INVALID_HOSTID converted to uint32_t, which is HW_INVALID_HOSTID itself when it fits. |
| Hostid.EmptySerialIsInvalid | module/spl/spl-generic.c:322-323 | An empty hw_serial fails to parse, so the host id is HW_INVALID_HOSTID as a uint32_t. |
| Hostid.DefaultSerialHostidIsZero | module/spl/spl-generic.c:314-326 | With the default serial "<none>" (line 56) the parse succeeds with no digit, and the host id is 0, not HW_INVALID_HOSTID. |
| Hostid.HostidRoundTrip | module/spl/spl-generic.c:314-326 | A serial holding the rendering of any 32-bit v in base HW_HOSTID_LEN-1 gives host id v. |
| SplInit.FirstFailure | module/spl/spl-generic.c:369-390 | The index of the first subsystem whose init fails: every earlier one returned 0, and that one did not. |
| SplInit.Lookups | module/spl/spl-generic.c:396-399 | set_kallsyms_lookup_name is called, at most once, exactly when HAVE_KALLSYMS_LOOKUP_NAME is not defined. |
| SplInit.Load | module/spl/spl-generic.c:365-426 | A failing init k returns its code after inits 0..k and the finis of k-1 down to 0; a debug_init failure unwinds nothing. A set_hostid or set_kallsyms_lookup_name failure returns -EADDRNOTAVAIL, and a spl_kmem_init_kallsyms_lookup failure its own code; each unwinds all eight. Success unwinds nothing. |
| SplInit.Startup | module/spl/spl-generic.c:365-407 | The calls before RETURN and their status. The label jumped to is the number of subsystems up, or 0 for a direct return. |
| SplInit.TakeDown | module/spl/spl-generic.c:408-425 | Entering at outN calls the finis of subsystems N-1 down to 0. |
| SplInit.UnwindStep | module/spl/spl-generic.c:408-425 | Falling through one more label appends that subsystem's fini. |
| SplInit.Unload | module/spl/spl-generic.c:429-444 | spl_fini removes the TSD hash table and then calls all eight finis in reverse order of bring-up. |
| SplInit.BringupInOrder | module/spl/spl-generic.c:369-390 | The i-th init call is that of the i-th subsystem in order. |
| SplInit.UnwindReversed | module/spl/spl-generic.c:408-425 | Unwinding calls the finis in the reverse of the bring-up order. |
| SplInit.TeardownReversesBringup | module/spl/spl-generic.c:365-425 | Last in, first out: the i-th fini of a teardown of n subsystems belongs to the subsystem brought up (n-1-i)-th. A subsystem is taken down exactly when its rank is below n. |
| SplInit.FailedLoadBalanced | module/spl/spl-generic.c:365-425 | A failed load takes down exactly the subsystems it brought up, except the one whose init failed. |

## Left out

- ddi_copyin, ddi_copyout, `__udivdi3`, `__umoddi3`, `__put_task_struct`, the `__utsname` helper, `spl_setup` and `spl_cleanup` are not part of this model. They are thin wrappers over kernel services.
- The exported globals (`p0`, `hw_serial`, `spl_hostid`, the kallsyms function pointer) are left out, along with the `EXPORT_SYMBOL` and module metadata. `hw_serial` is a parameter of `ZoneGetHostid`.
- set_hostid and set_kallsyms_lookup_name run a shell command through the user-mode helper. That, and what it writes under /proc, is outside the model. Their return codes are inputs.
- The init and fini routines of the eight subsystems, fini_tsd_hash_table and spl_kmem_init_kallsyms_lookup are opaque. Their return codes are inputs, and their calls are recorded events.
- printk messages, the ENTRY/RETURN debug tracing macros and the ASSERT on the zone argument are left out. The zone argument is dropped, because only the global zone (NULL) is supported.
- HW_HOSTID_LEN and HW_INVALID_HOSTID are defined outside spl-generic.c, so they are parameters. The header that defines them is not part of this model.
- Only ASCII is modelled for isdigit, isalpha, isxdigit and tolower. Bytes above 127 are not.
- Every string is modelled as NUL-terminated: any index at or past the end reads as NUL. A buffer without a terminator is not modelled.
- StrTo.Negate: `-*result` negates a signed `long`. For the most negative value, from input such as "-9223372036854775808" at 64 bits, that negation is a signed overflow, which ISO C leaves undefined. The model gives the two's-complement wrap-around that the kernel's -fno-strict-overflow build produces, and StrToFacts.NegateInRange relies on it for the magnitude 2^(W-1).
- Pointer types are not modelled. `long *` is passed where `unsigned long *` is expected, so the signed results are kept as W-bit patterns, with `ToSigned` as their signed reading.
- HighBit.HighBit: the mask tests `i & m` are modelled as UpperHalf, a test on the upper half of the bits still inspected. After the previous shifts these bits are the same as the masked bits, but the masks themselves are not modelled.
- SplInit.Load: `Env` gives each init a fixed return code. Side effects that an earlier call has on a later one are not modelled.
