/**
 * The error taxonomy of the template engine and the `Option`/`Result`
 * wrappers every other module uses.
 */
module Errors {

  datatype Option<+T> = None | Some(value: T) {
    function GetOr(default: T): T {
      match this
      case Some(v) => v
      case None => default
    }
  }

  /** How a spawned process ended: `code` is absent when a signal killed it. */
  datatype ExitStatus = ExitStatus(code: Option<int>) {
    /** A process succeeded exactly when it exited with code 0. */
    predicate Success() {
      code == Some(0)
    }
  }

  /**
   * Every way resolving or loading a page can fail. `MissingArgument` is
   * the variant the parser constructs (the error enum spells it
   * `ArgumentError`); `IOError` and `ConfigParseError` do not carry the
   * underlying library error.
   */
  datatype Error =
    | Empty
    | UnclosedQuote
    | MissingArgument(which: string)
    | UnknownTemplate(name: string)
    | UnclosedTemplate
    | IOError
    | ConfigParseError
    | UnclosedConfig
    | ExtendWithNoPageContent
    | ExecCommandFailed(status: ExitStatus, stderr: string)
    | ToplevelPageContent

  /** The engine's own `Result<T>`: the error type is always `Error`. */
  datatype Result<+T> = Ok(value: T) | Err(error: Error) {
    predicate IsFailure() {
      Err?
    }

    function PropagateFailure<U>(): Result<U>
      requires Err?
    {
      Err(error)
    }

    function Extract(): T
      requires Ok?
    {
      value
    }
  }
}
