/** Failure-compatible result types shared by the evaluators. */
module Wrappers {

  /** What a fuel-bounded evaluation produces: `Ok(v)` and `Err` are the source's
      `Ok(v)` and `Err(())`; `OutOfFuel` says that the bound on nested function
      applications was reached before evaluation finished (the source would go on). */
  datatype Result<+T> = Ok(value: T) | Err | OutOfFuel {

    predicate IsFailure() {
      !Ok?
    }

    /** Passes an `Err` or an `OutOfFuel` on unchanged, as `try!` does. */
    function PropagateFailure<U>(): Result<U>
      requires IsFailure()
    {
      if Err? then Err else OutOfFuel
    }

    function Extract(): T
      requires Ok?
    {
      value
    }

    /** Forgets why a result failed: the `Option` view of it. */
    function ToOption(): Option<T> {
      match this
      case Ok(v) => Some(v)
      case _ => None
    }
  }

  datatype Option<+T> = None | Some(value: T) {

    predicate IsFailure() {
      None?
    }

    function PropagateFailure<U>(): Option<U>
      requires None?
    {
      None
    }

    function Extract(): T
      requires Some?
    {
      value
    }
  }
}
