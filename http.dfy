/** Failure values of the gateway: the HTTP errors its handlers raise on purpose,
    and the uncaught Python exceptions (KeyError, TypeError) that the web framework
    turns into a server error. */
module Http {

  const BAD_REQUEST: int := 400
  const UNAUTHORIZED: int := 401
  const NOT_FOUND: int := 404
  const METHOD_NOT_ALLOWED: int := 405
  const INTERNAL_SERVER_ERROR: int := 500

  datatype Option<+T> = None | Some(value: T)

  datatype Failure =
    | HttpError(status: int, detail: string)
    | Crash(reason: string)   // an exception the source does not catch

  datatype Result<+T> = Ok(value: T) | Err(error: Failure) {
    predicate IsFailure() { Err? }

    function PropagateFailure<U>(): Result<U>
      requires Err?
    {
      Err(error)
    }

    function Extract(): T
      requires Ok?
    {
      value
    }
  }
}
