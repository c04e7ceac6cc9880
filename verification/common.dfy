/** Small shared vocabulary: optional values, bytes and the 32-bit `usize`
    arithmetic of the ESP32 target. */
module Common {

  datatype Option<+T> = None | Some(value: T) {
    /** `Option::unwrap_or`. */
    function GetOr(default: T): T {
      match this
      case Some(v) => v
      case None => default
    }
  }

  newtype Byte = b: int | 0 <= b < 256

  /** `usize` is 32 bits wide on every ESP32 core. */
  const USIZE_MODULUS: nat := 0x1_0000_0000
  /** Values `serde_json::Value::as_u64` can return. */
  const U64_MODULUS: nat := 0x1_0000_0000_0000_0000

  function Min(a: nat, b: nat): (m: nat)
    ensures m <= a && m <= b
    ensures m == a || m == b
  {
    if a <= b then a else b
  }

  /** `usize::saturating_sub`: the difference, or 0 when it would go below zero. */
  function SaturatingSub(a: nat, b: nat): (d: nat)
    ensures b <= a ==> b + d == a
    ensures a <= b ==> d == 0
  {
    if a <= b then 0 else a - b
  }

  /** `x as usize` for an unsigned value: keeps the low 32 bits. */
  function UsizeCast(x: nat): (u: nat)
    ensures u < USIZE_MODULUS
    ensures (x - u) % USIZE_MODULUS == 0
    ensures x < USIZE_MODULUS ==> u == x
  {
    x % USIZE_MODULUS
  }

  /** The value an `AtomicUsize::fetch_add` leaves behind: the sum, wrapping at 2^32. */
  function WrappingAdd(a: nat, b: nat): (s: nat)
    ensures s < USIZE_MODULUS
    ensures (a + b - s) % USIZE_MODULUS == 0
    ensures a + b < USIZE_MODULUS ==> s == a + b
  {
    (a + b) % USIZE_MODULUS
  }
}
