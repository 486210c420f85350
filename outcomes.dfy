/** Values standing for Java references that may be null, and for the
    exceptions the graph operations throw. */
module Outcomes {

  /** A Java `String` argument: `None` is `null`. */
  datatype Option<T> = None | Some(value: T)

  /** The kinds of failure the graph operations signal.  All but the last are
      `IllegalArgumentException`s, told apart by their messages. */
  datatype Error =
    | IllegalName        // "Vertex name cannot be null (or empty)"
    | DuplicateVertex    // "Vertex already exists"
    | SelfLoop           // "Cannot add edge to itself"
    | UnknownVertex      // "... does not exist"
    | IndexOutOfBounds   // ArrayIndexOutOfBoundsException from the backing arrays

  /** The result of an operation that returns a value or throws. */
  datatype Result<T> = Ok(value: T) | Err(error: Error)

  /** The result of an operation that returns nothing or throws. */
  datatype Outcome = Pass | Fail(error: Error)
}
