/** The one failure the cipher can report, as an explicit value instead of
    a raised exception. */
module Results {

  /** `ModularInverseDoesNotExist` is the exception `modinv` raises when the
      gcd it computes is not 1; `ZeroDivision` is the error Python raises when
      `modinv` reduces its answer modulo a modulus of 0. */
  datatype Error = ModularInverseDoesNotExist | ZeroDivision

  /** Either a value or the error that stopped the computation; usable with `:-`. */
  datatype Result<T> = Ok(value: T) | Err(error: Error) {

    predicate IsFailure() {
      Err?
    }

    function PropagateFailure<U>(): Result<U>
      requires Err?
    {
      Err(error)
    }

    function Extract(): T
      requires Ok?
    {
      value
    }
  }
}
