/** Failure-carrying return values shared by every module of the model.

    The Rust core reports failures in two ways: as Python exceptions raised
    through pyo3 (`PyIndexError`, `PyRuntimeError`) and as panics (an
    `unwrap` of `None`, an index past the end, an unsigned subtraction below
    zero in a debug build). The Python layer adds `TypeError` and
    `AssertionError`. All of them become an `Err` carrying the kind. */
module Wrappers {

  datatype Option<+T> = None | Some(value: T)

  /** The failure kinds the core and its Python wrapper surface. */
  datatype Error =
    | IndexError       // pyo3 PyIndexError: "Index out of range!"
    | RuntimeError     // pyo3 PyRuntimeError: size mismatch
    | TypeError        // Python TypeError raised by the wrapper
    | AssertionError   // a failed Python `assert`
    | Panic            // a Rust panic (unwrap, bounds check, overflow check)

  datatype Result<+T> = Ok(value: T) | Err(error: Error)

  /** A result without a value, for operations that return `()` or raise. */
  datatype Outcome = Pass | Fail(error: Error)
}
