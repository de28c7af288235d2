/**
  The error values the utility package produces or passes through, and the
  result types that carry them.
 */
module Errors {
  import opened Constants

  /** Every failure the package can return. Errors from the Kubernetes listers
      and from the YAML decoder are passed through unchanged, so only their
      message is kept. */
  datatype Error =
    | ListerError(message: string)
    | ParseError(message: string)
    | MissingKeyError
    | ContainerNotFoundError(container: string)
  {
    /** The text the Go error value prints. */
    function Message(): string {
      match this
      case ListerError(m) => m
      case ParseError(m) => m
      case MissingKeyError =>
        "Missing configuration map key: " + IstioInitializerConfigMapKey +
        " in configmap: " + IstioInitializerConfigMap
      case ContainerNotFoundError(n) => "Failed to find container " + n
    }
  }

  /** A value, or the error that prevented computing it (Go's (T, error) pair). */
  datatype Result<+T> = Ok(value: T) | Err(error: Error)

  /** A value that may be absent (Go's nil pointer). */
  datatype Option<+T> = None | Some(value: T)
}
