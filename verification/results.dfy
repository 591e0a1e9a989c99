/** The exceptions the modelled Python code can raise, and the failure-compatible
    datatypes used to return either a value or one of those exceptions. */
module Results {

  /** The Python exception classes that escape from the modelled operations. */
  datatype Error =
    | KeyError        // a path segment (or a dict key) is absent
    | TypeError       // indexing through a leaf value, or an argument of the wrong type
    | ValueError      // a separator found inside a key, or an empty separator
    | IndexError      // an empty key list handed to recursive set/delete
    | AttributeError  // an attribute that was never assigned, or a method a leaf lacks
    | NameError       // a module-level name that was never imported
    | RuntimeError    // a dict that changed size while it was being iterated

  /** Python's `None` next to a present value. */
  datatype Option<+T> = None | Some(value: T)

  /** Either the value a call returns or the exception it raises. */
  datatype Result<+T> = Ok(value: T) | Err(error: Error) {

    predicate IsFailure() {
      Err?
    }

    function PropagateFailure<U>(): Result<U>
      requires Err?
    {
      Err(error)
    }

    function Extract(): T
      requires Ok?
    {
      value
    }
  }
}
