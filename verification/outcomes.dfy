/** Optional values and the error outcomes of the pipeline.

    The Java code signals failure in three ways that the model keeps apart:
    a `null` return that callers test for (an `Option`), an exception the
    runtime throws (`Result.Err`), and a normal result (`Result.Ok`).
 */
module Outcomes {

  /** A value that may be absent, standing for a Java reference that may be null. */
  datatype Option<+T> = None | Some(value: T)

  /** The exceptions the modelled code can raise. */
  datatype Error =
    | NullPointer       // a null array or Mat row is dereferenced
    | IllegalArgument   // an argument is rejected explicitly
    | CvAssertion       // an OpenCV precondition check fails inside a native call

  /** Either a normal result or the exception that ended the call. */
  datatype Result<+T> = Ok(value: T) | Err(error: Error)
}
