/** Option and Result types shared by the model, and the error taxonomy of the
    STL bindings: every C++ exception the bindings throw becomes an `Err`. */
module Wrappers {

  datatype Option<+T> = None | Some(value: T)

  /** Errors raised by the bindings. */
  datatype Error =
    | OutOfRange(index: int)      // std::out_of_range("Invalid index: <index>")
    | NotCopyable(what: string)   // std::runtime_error("Cannot copy <what> with non-copy constructible types")
    | TypeError(expected: string) // rb_eTypeError "wrong argument type ... (expected <expected>)"
    | NoConverter                 // std::runtime_error("Could not find converter for variant")
    | Raised(message: string)     // an error raised by an element converter or by unwrapping

  datatype Result<+T> = Ok(value: T) | Err(error: Error)
}
