/** Option and Result, the failure-carrying shapes the Rust code uses. */
module Wrappers {

  /** Rust's `Option<T>`. */
  datatype Option<+T> = None | Some(value: T) {

    /** `Option::or`: this value if present, otherwise `other`. */
    function Or(other: Option<T>): Option<T> {
      match this
      case Some(_) => this
      case None => other
    }
  }

  /** Rust's `Result<T, E>`; a `Failure` also stands for a panic of the modelled code. */
  datatype Result<+T, +E> = Success(value: T) | Failure(error: E)

  /** `opt.iter().flatten()` over an `Option<Vec<T>>`: an absent list contributes nothing. */
  function OrEmpty<T>(o: Option<seq<T>>): seq<T> {
    match o
    case Some(s) => s
    case None => []
  }
}
