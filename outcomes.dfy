/** Failure values shared by every module of the model.

    The source reports failures in two ways: it throws an exception
    (a precondition violation, an index out of range, or a null that is
    dereferenced), or `Matrix.solve` returns `null`. The exceptions become
    `Err(...)`; the `null` of `solve` becomes `None`. */
module Outcomes {

  /** The exception classes the core throws. */
  datatype Error =
    | IllegalArgument    // IllegalArgumentException
    | IndexOutOfBounds   // ArrayIndexOutOfBoundsException / IndexOutOfBoundsException
    | NullPointer        // NullPointerException from dereferencing a null solve result

  /** A value, or the exception thrown instead of returning it. */
  datatype Result<T> = Ok(value: T) | Err(error: Error)

  /** A value, or the `null` that stands for "no value". */
  datatype Option<T> = None | Some(value: T)
}
