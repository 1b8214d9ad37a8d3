/** Failure-carrying results standing in for the Python exceptions of the ciphers and the signature scheme. */
module Outcomes {

  /** The kinds of `ValueError` the modelled code raises. */
  datatype Error =
    | NoInverse        // a modular inverse was requested for a non-invertible value
    | NotInAlphabet    // `alphabet.index` found no such letter
    | UnsupportedText  // no letter of a supported alphabet in the text

  /** A computation that either returns a value or raises one of the errors above. */
  datatype Result<+T> = Ok(value: T) | Err(error: Error) {

    predicate IsFailure() {
      Err?
    }

    function PropagateFailure<U>(): Result<U>
      requires Err?
    {
      Err(error)
    }

    function Extract(): T
      requires Ok?
    {
      value
    }
  }

  datatype Option<+T> = None | Some(value: T)
}
