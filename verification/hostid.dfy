/**
 * zone_get_hostid (module/spl/spl-generic.c): the host id of the global
 * zone, read from the hw_serial string with ddi_strtoul in base
 * HW_HOSTID_LEN - 1 and truncated to 32 bits.
 *
 * hw_serial, HW_HOSTID_LEN and HW_INVALID_HOSTID are parameters: the
 * buffer is filled from user space at load time and the two constants
 * come from headers that are not part of this model.
 */
module Hostid {
  import opened Ctype
  import opened Arith
  import opened Platform
  import opened StrTo
  import opened StrToFacts

  /** The initial contents of hw_serial, before the host id is set. */
  const DefaultSerial: seq<char> := "<none>"

  /**
   * What zone_get_hostid returns for the serial string: the parsed value on
   * success and HW_INVALID_HOSTID on failure, either one converted to the
   * uint32_t return type.
   */
  ghost function HostidOf(arch: Arch, serial: seq<char>, hostidLen: int, invalidHostid: nat): (r: nat)
    ensures r < Pow2(32)
    ensures !Parse(serial, 0, hostidLen - 1, BitsPerLong(arch)).Parsed? ==> r == invalidHostid % Pow2(32)
    ensures invalidHostid < Pow2(32) && !Parse(serial, 0, hostidLen - 1, BitsPerLong(arch)).Parsed? ==> r == invalidHostid
  {
    var o := Parse(serial, 0, hostidLen - 1, BitsPerLong(arch));
    SmallUnchanged(invalidHostid);
    if o.Parsed? then o.value % Pow2(32) else invalidHostid % Pow2(32)
  }

  /**
   * zone_get_hostid for the global zone (the zone argument, which must be
   * NULL, is left out). The end pointer is not asked for; the variable
   * that receives the value starts out unset and is only read after a
   * successful call, which always stores to it.
   */
  method ZoneGetHostid(arch: Arch, hwSerial: seq<char>, hostidLen: int, invalidHostid: nat)
    returns (id: nat)
    ensures id == HostidOf(arch, hwSerial, hostidLen, invalidHostid)
    ensures id < Pow2(32)
  {
    var rc, _, hostid := StrToUl(arch, hwSerial, 0, Null, hostidLen - 1, 0);
    if rc != 0 {
      return invalidHostid % Pow2(32);
    }
    id := hostid % Pow2(32);
  }

  /** Converting a value below 2^32 to uint32_t leaves it unchanged. */
  lemma SmallUnchanged(x: nat)
    ensures x < Pow2(32) ==> x % Pow2(32) == x
  {
    if x < Pow2(32) {
      ModUnique(x, Pow2(32), 0, x);
    }
  }

  /** An empty serial fails to parse, so the host id is HW_INVALID_HOSTID as a uint32_t. */
  lemma EmptySerialIsInvalid(arch: Arch, hostidLen: int, invalidHostid: nat)
    ensures HostidOf(arch, [], hostidLen, invalidHostid) == invalidHostid % Pow2(32)
    ensures invalidHostid < Pow2(32) ==> HostidOf(arch, [], hostidLen, invalidHostid) == invalidHostid
  {
    assert At([], 0) == NUL;
  }

  /** "<none>" has no digit in any base: it parses as 0, so the host id is 0 until it is set. */
  lemma DefaultSerialHostidIsZero(arch: Arch, hostidLen: int, invalidHostid: nat)
    ensures Parse(DefaultSerial, 0, hostidLen - 1, BitsPerLong(arch)) == Parsed(0, 0)
    ensures HostidOf(arch, DefaultSerial, hostidLen, invalidHostid) == 0
  {
    var base, w := hostidLen - 1, BitsPerLong(arch);
    assert At(DefaultSerial, 0) == '<';
    if base == 0 {
      OtherFirstByteIsDecimal(DefaultSerial, 0, w);
      NoDigitExplicitBase(DefaultSerial, 0, 10, w);
    } else {
      NoDigitExplicitBase(DefaultSerial, 0, base, w);
    }
    ModUnique(0, Pow2(32), 0, 0);
  }

  /**
   * A host id below 2^32 written out in base HW_HOSTID_LEN - 1 (between 2
   * and 36) is read back unchanged.
   */
  lemma HostidRoundTrip(arch: Arch, hostidLen: int, invalidHostid: nat, v: nat)
    requires 2 <= hostidLen - 1 <= 36 && v < Pow2(32)
    ensures HostidOf(arch, Render(v, hostidLen - 1), hostidLen, invalidHostid) == v
  {
    var w := BitsPerLong(arch);
    Pow2Mono(32, w);
    RoundTrip(v, hostidLen - 1, w);
    ModUnique(v, Pow2(32), 0, v);
  }
}
