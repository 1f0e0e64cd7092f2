/** The parts of Rust's `std::io` and `Option` that the address-trial code relies on:
    an error carrying a kind and a message, `io::Result<T>`, and `Option<T>`. */
module Io {

  /** A subset of `std::io::ErrorKind`: the kinds a connect or bind attempt
      typically reports, `InvalidInput` (the one `each_addr` creates itself),
      and `Other` for everything else. */
  datatype ErrorKind =
    | NotFound
    | PermissionDenied
    | ConnectionRefused
    | ConnectionReset
    | AddrInUse
    | AddrNotAvailable
    | TimedOut
    | InvalidInput
    | Other

  /** `std::io::Error` built with `io::Error::new(kind, message)`. */
  datatype Error = Error(kind: ErrorKind, message: string)

  /** `std::io::Result<T>`, i.e. `Result<T, io::Error>`. */
  datatype Result<T> = Ok(value: T) | Err(error: Error)

  datatype Option<T> = None | Some(value: T) {

    /** `Option::unwrap_or_else` with a closure that ignores its environment. */
    function UnwrapOr(default: T): T
    {
      match this
      case Some(x) => x
      case None => default
    }
  }
}
