/** Option and Result types, and the Python exceptions the core raises or catches. */
module Wrappers {

  datatype Option<+T> = None | Some(value: T)

  /** The exceptions that can escape, or be caught inside, the modelled code. */
  datatype Error =
    | CommandFailed(stdout: string, stderr: string, exitCode: int)  // subprocess.CalledProcessError
    | RuntimeError(message: string)
    | HttpError(status: int)                                        // urllib.error.HTTPError
    | DecodeError                                                   // json.JSONDecodeError
    | KeyError(key: string)
    | IndexError
    | TypeError
    | AttributeError
    | ValueError(message: string)
    | FileNotFound(path: string)

  /** A value, or the exception raised while computing it. */
  datatype Result<+T> = Ok(value: T) | Err(error: Error) {
    predicate IsFailure() { Err? }
    function PropagateFailure<U>(): Result<U>
      requires Err?
    {
      Err(error)
    }
    function Extract(): T
      requires Ok?
    {
      value
    }
  }
}
