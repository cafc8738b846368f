/** Failure values shared by every module of the model. */
module Results {

  /** The exceptions the modelled Python code can raise, plus the root finder giving up. */
  datatype Error =
    | ValueError      // float() rejects its text, max() of nothing, a tuple of the wrong size is unpacked
    | TypeError       // str.join given two arguments, subscripting None
    | KeyError        // a dict lookup of a missing key
    | IndexError      // indexing an empty list or tuple
    | NameError       // a local name read before it is bound
    | StopIteration   // next() on an exhausted generator
    | NoConvergence   // the ValueError mpmath's findroot raises when it does not converge; ajax_calc does not catch it

  datatype Option<+T> = None | Some(value: T)

  datatype Result<+T> = Ok(value: T) | Err(error: Error) {
    predicate IsFailure() { Err? }

    function PropagateFailure<U>(): Result<U>
      requires Err?
    {
      Err(error)
    }

    function Extract(): T
      requires Ok?
    {
      value
    }
  }
}
