/** Failure-compatible wrappers shared by the decoder and the assembler. */
module Wrappers {

  datatype Option<+T> = None | Some(value: T)

  /** The ways one run of the inventory builder aborts. Each one is an
      exception that escapes the Python loop and ends the whole run. */
  datatype Failure =
    /** A `;`-segment that does not split on `=` into exactly two names (ValueError). */
    | BadSegment(segment: string)
    /** A `var:value` item that does not split on `:` into exactly two names (ValueError). */
    | BadVarPair(pair: string)
    /** A dictionary lookup of a field the entry does not have (KeyError). */
    | MissingField(field: string)

  datatype Result<+T> = Ok(value: T) | Err(error: Failure) {

    predicate IsFailure() {
      Err?
    }

    function PropagateFailure<U>(): Result<U>
      requires Err?
    {
      Err(error)
    }

    function Extract(): T
      requires Ok?
    {
      value
    }
  }
}
