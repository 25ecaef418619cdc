/** Outcomes of the table engine: the exceptions the Python code raises become
    constructors of `Error`, and every operation that can raise returns a
    `Result`. */
module Errors {

  datatype Error =
    | GroupNotFound              // `GroupNotFound()`: no coordinate group matches every pattern
    | AmbiguousGroup             // `RuntimeError`: more than one group matches
    | DuplicateKey(key: string)  // `ValueError`: a second line resolved to a key already in the row
    | UnrecognizedBias           // `ValueError`: heading bias other than "centered" or "min"
    | EmptySequence              // `ValueError` of builtin min()/max() on an empty argument
    | Tie                        // `TypeError` of min()/max() comparing two TextLine objects
    | AssertionFailed            // `AssertionError` of an `assert` in the code
    | NoFontName                 // `TypeError` of `"Bold" in None`

  datatype Option<+T> = None | Some(value: T)

  datatype Result<+T> = Ok(value: T) | Err(error: Error) {
    predicate IsFailure() { Err? }

    function PropagateFailure<U>(): Result<U>
      requires Err?
    {
      Err(error)
    }

    function Extract(): T
      requires Ok?
    {
      value
    }
  }
}
