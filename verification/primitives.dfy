/**
  Fixed-width integers, failure wrappers and the host abstractions that the
  profile contract relies on.

  Every width the contract stores is modelled as a subset of `int`; where the
  C++ arithmetic wraps, the wrap is written out (`AddU32`).
 */
module Primitives {

  const TWO_8: int := 0x100
  const TWO_32: int := 0x1_0000_0000
  const TWO_64: int := 0x1_0000_0000_0000_0000

  type U8 = x: int | 0 <= x < TWO_8
  type U32 = x: int | 0 <= x < TWO_32
  type U64 = x: int | 0 <= x < TWO_64
  type U128 = x: int | 0 <= x < TWO_64 * TWO_64

  /** The contents of a `std::string`: its bytes, not its characters. */
  type Bytes = seq<U8>

  /** An account or contract name; its 64-bit value is opaque to this model. */
  type Name = U64

  /** The value of a default-constructed `name`. */
  const EmptyName: Name := 0

  /** `uint32_t + uint8_t` stored back into a `uint32_t`: arithmetic modulo 2^32. */
  function AddU32(a: U32, b: U8): (r: U32)
    ensures a + b < TWO_32 ==> r == a + b
    ensures a + b >= TWO_32 ==> r == a + b - TWO_32
  {
    (a + b) % TWO_32
  }

  datatype Option<+T> = None | Some(value: T)

  /** The reasons a `check` in the contract (or the table library under it) aborts. */
  datatype Error =
    | BadgeNotFound        // the org has no such badge for that contract
    | BadgeAlreadyExists   // the contract already registered that badge in the org
    | PrimaryKeyExhausted  // no 64-bit primary key is left above the largest one in use

  datatype Result<+T> = Ok(value: T) | Err(error: Error)

  /**
    What the contract asks of the chain it runs on: its own account, the
    names of the asset collection and schema it mints into, the authority
    oracle behind `has_auth`, and `name::to_string`.
   */
  datatype Host = Host(
    self: Name,
    collection: Name,
    schema: Name,
    hasAuth: Name -> bool,
    nameToString: Name -> string)
}
