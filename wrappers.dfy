/** Option and Result values, and the single error status of the firmware-storage parser. */
module Wrappers {

  datatype Option<+T> = None | Some(value: T) {
    predicate IsFailure() {
      None?
    }

    function PropagateFailure<U>(): Option<U>
      requires None?
    {
      None
    }

    function Extract(): T
      requires Some?
    {
      value
    }
  }

  datatype Result<+T, +E> = Ok(value: T) | Err(error: E) {
    /** Drops the error, as Rust's `Result::ok()` does. */
    function ToOption(): Option<T> {
      match this
      case Ok(v) => Some(v)
      case Err(_) => None
    }
  }

  /** EFI status codes the parser returns; every structural failure is INVALID_PARAMETER. */
  datatype Status = InvalidParameter
}
