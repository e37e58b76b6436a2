/** Shared value types for the BrewTools model: the C++ `unsigned` used for
    trace levels and system ids, and an optional value standing in for a
    nullable pointer. */
module Types {

  /** Number of distinct values of a 32-bit C++ `unsigned`. */
  const UINT_RANGE: int := 0x1_0000_0000

  /** A C++ `unsigned` (32 bits on every target the library builds for). */
  newtype Unsigned = x: int | 0 <= x < 0x1_0000_0000

  /** The largest `unsigned`, after which `++` wraps back to zero. */
  const UINT_MAX: Unsigned := 0xFFFF_FFFF

  /** A nullable pointer: `None` is NULL, `Some(p)` is a live object. */
  datatype Option<+T> = None | Some(value: T)
}
