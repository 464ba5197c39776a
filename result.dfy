/** Outcome of an operation that the source ends with `err_exit` on failure. */
module Outcome {

  /** `Fail` stands for a call of `err_exit`: the process would stop there. */
  datatype Result<T> = Ok(value: T) | Fail(reason: string) {

    predicate IsFailure() {
      Fail?
    }

    function PropagateFailure<U>(): Result<U>
      requires Fail?
    {
      Fail(reason)
    }

    function Extract(): T
      requires Ok?
    {
      value
    }
  }
}
