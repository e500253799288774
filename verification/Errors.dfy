/** The outcome types shared by every model of an operation that can fail. */
module Errors {

  /** The two members of `std::errc` that the text parsers report. */
  datatype Errc = InvalidArgument | ResultOutOfRange

  /** `std::expected<T, std::error_code>`. */
  datatype Result<+T> = Ok(value: T) | Err(error: Errc) {
    predicate IsFailure() {
      Err?
    }

    function PropagateFailure<U>(): Result<U>
      requires Err?
    {
      Err(error)
    }

    function Extract(): T
      requires Ok?
    {
      value
    }
  }

  datatype Option<+T> = None | Some(value: T)
}
