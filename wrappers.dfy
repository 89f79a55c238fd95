/** Option and Result values, and the 32-bit unsigned arithmetic of the source
    (`u32`), whose overflow is a panic in a debug build. */
module Wrappers {

  datatype Option<+T> = None | Some(value: T)

  /** A computation that either yields a value or stops with an error
      (a Rust panic, or an `Err` propagated with `?`). */
  datatype Result<+T, +E> = Ok(value: T) | Err(error: E) {
    predicate IsFailure() { Err? }

    function PropagateFailure<U>(): Result<U, E>
      requires Err?
    {
      Err(error)
    }

    function Extract(): T
      requires Ok?
    {
      value
    }
  }

  /** One more than the largest `u32`. */
  const U32_LIMIT: int := 0x1_0000_0000

  predicate IsU32(x: int) { 0 <= x < U32_LIMIT }

  /** Why a `u32` operation panicked. */
  datatype Overflow = AddOverflow | SubUnderflow

  /** `a + b` on `u32` with overflow checks. */
  function AddU32(a: int, b: int): (r: Result<int, Overflow>)
    requires IsU32(a) && IsU32(b)
    ensures r.Ok? <==> a + b < U32_LIMIT
    ensures r.Ok? ==> r.value == a + b && IsU32(r.value)
  {
    if a + b < U32_LIMIT then Ok(a + b) else Err(AddOverflow)
  }

  /** `a - b` on `u32` with overflow checks. */
  function SubU32(a: int, b: int): (r: Result<int, Overflow>)
    requires IsU32(a) && IsU32(b)
    ensures r.Ok? <==> b <= a
    ensures r.Ok? ==> r.value == a - b && IsU32(r.value)
  {
    if b <= a then Ok(a - b) else Err(SubUnderflow)
  }
}
