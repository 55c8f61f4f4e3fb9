/** Failure-carrying return values shared by every module of the model.
    The C++ code signals failure by assertions and exceptions; the model
    turns each of those into an explicit `Fault` value instead. */
module Results {

  datatype Option<+T> = None | Some(value: T)

  datatype Result<+T, +E> = Ok(value: T) | Fault(error: E) {
    predicate IsFailure() { Fault? }

    function PropagateFailure<U>(): Result<U, E>
      requires Fault?
    {
      Fault(error)
    }

    function Extract(): T
      requires Ok?
    {
      value
    }
  }
}
