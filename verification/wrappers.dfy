/** Option and Result datatypes shared by every module of the model.
    `Option` stands for JavaScript's `undefined`/`null` and Python's `None`;
    `Result` stands for a value or a thrown error carrying its message. */
module Wrappers {

  datatype Option<+T> = None | Some(value: T) {

    /** The wrapped value, or `default` when absent. */
    function GetOr(default: T): T {
      match this
      case Some(v) => v
      case None => default
    }
  }

  datatype Result<+T, +E> = Success(value: T) | Failure(error: E) {

    /** Converts to an Option, forgetting the error. */
    function ToOption(): Option<T> {
      match this
      case Success(v) => Some(v)
      case Failure(_) => None
    }
  }
}
