/**
 * The build-time word size of the kernel the porting layer is compiled
 * for: BITS_PER_LONG is 32 or 64, and `long long` is 64 bits on both.
 */
module Platform {

  datatype Arch = Bits32 | Bits64

  function BitsPerLong(a: Arch): (n: nat)
    ensures n == 32 || n == 64
  {
    match a
    case Bits32 => 32
    case Bits64 => 64
  }

  const LongLongBits: nat := 64
}
