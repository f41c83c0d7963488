/** Error values and the small failure-carrying datatypes the protocol layer returns. */
module Outcomes {

  /** An error slot in Go's style: None is a nil error, Some carries the error returned. */
  datatype Option<+T> = None | Some(value: T)

  /** The errors the protocol layer can report.
      NotOnCurve is the package's own `errNotOnCurve`; Io stands for any error value returned by an
      external collaborator (`binary.Write`, `hash.Hash.Write`), which the protocol passes on
      unchanged, so its cause is kept verbatim. */
  datatype Error = NotOnCurve | Io(cause: nat)

  /** A value or the error that prevented computing it. */
  datatype Result<+T> = Ok(value: T) | Err(error: Error)
}
