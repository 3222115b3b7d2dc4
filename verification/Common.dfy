/**
 What the models share: optional values, bytes, instants, and machine integers with their
 saturating operations.
 */
module Common {

  datatype Option<+T> = None | Some(value: T)

  type Byte = b: int | 0 <= b < 256

  /** A point on a monotonic clock. */
  type Instant = nat

  const USIZE_MAX: nat := 0xFFFF_FFFF_FFFF_FFFF
  const U64_MODULUS: nat := 0x1_0000_0000_0000_0000

  function Saturated(n: nat): (r: nat)
    ensures r <= USIZE_MAX
    ensures n <= USIZE_MAX ==> r == n
  {
    if n > USIZE_MAX then USIZE_MAX else n
  }

  function SaturatingAdd(a: nat, b: nat): nat { Saturated(a + b) }

  function SaturatingSub(a: nat, b: nat): nat { if a < b then 0 else a - b }
}
