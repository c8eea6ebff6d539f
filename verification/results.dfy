/** Options and results, in the failure-compatible form `:-` understands. */
module Results {

  datatype Option<+T> = None | Some(value: T)

  datatype Result<+T, +E> = Ok(value: T) | Err(error: E) {
    predicate IsFailure() {
      Err?
    }

    function PropagateFailure<U>(): Result<U, E>
      requires Err?
    {
      Err(error)
    }

    function Extract(): T
      requires Ok?
    {
      value
    }
  }

  /** `checked_add` and `checked_mul` on 64-bit words, with the error the caller maps `None` to. */
  function CheckedAdd<E>(a: nat, b: nat, error: E): Result<nat, E> {
    if a + b < 0x1_0000_0000_0000_0000 then Ok(a + b) else Err(error)
  }

  function CheckedMul<E>(a: nat, b: nat, error: E): Result<nat, E> {
    if a * b < 0x1_0000_0000_0000_0000 then Ok(a * b) else Err(error)
  }
}
