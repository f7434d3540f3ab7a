/** The few Rust standard-library shapes the registry is written in terms of:
    `Option`, `Result`, bytes, the 64-bit integer types and the `as` casts
    between `u64` and `i64`. */
module Prelude {

  datatype Option<+T> = None | Some(value: T)

  datatype Result<+T, +E> = Ok(value: T) | Err(error: E)

  /** `Option<Result<T, E>>::transpose`. */
  function Transpose<T, E>(o: Option<Result<T, E>>): (r: Result<Option<T>, E>)
    ensures r.Err? <==> o.Some? && o.value.Err?
    ensures r.Ok? && r.value.Some? <==> o.Some? && o.value.Ok?
    ensures o.Some? && o.value.Ok? ==> r == Ok(Some(o.value.value))
    ensures o.Some? && o.value.Err? ==> r == Err(o.value.error)
  {
    match o
    case None => Ok(None)
    case Some(Ok(v)) => Ok(Some(v))
    case Some(Err(e)) => Err(e)
  }

  type byte = b: int | 0 <= b < 256

  type Bytes = seq<byte>

  const U64_MODULUS: int := 0x1_0000_0000_0000_0000
  const I64_LIMIT: int := 0x8000_0000_0000_0000

  type u64 = x: int | 0 <= x < 0x1_0000_0000_0000_0000

  type i64 = x: int | -0x8000_0000_0000_0000 <= x < 0x8000_0000_0000_0000

  /** `x as i64` on a `u64`: the same 64 bits read as two's complement, so the
      value is kept modulo 2^64 and is negative exactly from 2^63 up. */
  function U64AsI64(x: u64): (r: i64)
    ensures r % U64_MODULUS == x % U64_MODULUS
    ensures r >= 0 <==> x < I64_LIMIT
  {
    if x < I64_LIMIT then x else x - U64_MODULUS
  }

  /** `x as u64` on an `i64`: the inverse reinterpretation. */
  function I64AsU64(x: i64): (r: u64)
    ensures r % U64_MODULUS == x % U64_MODULUS
    ensures r < I64_LIMIT <==> x >= 0
  {
    if x >= 0 then x else x + U64_MODULUS
  }

  /** The two casts undo each other on their whole domains, so a version
      component survives the trip into a signed column and back. */
  lemma CastsInverse(x: u64, y: i64)
    ensures I64AsU64(U64AsI64(x)) == x
    ensures U64AsI64(I64AsU64(y)) == y
    ensures x < I64_LIMIT ==> U64AsI64(x) == x
    ensures y >= 0 ==> I64AsU64(y) == y
  {
  }
}
