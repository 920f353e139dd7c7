/** Outcome types shared by the validator, the store and the services.

    The Python code signals failure by raising; here every failing operation
    returns one of the error kinds below instead. */
module Results {

  /** A value that may be absent (Python's `None`). */
  datatype Option<+T> = None | Some(value: T) {

    /** The wrapped value, or `default` when absent. */
    function GetOr(default: T): T {
      if Some? then value else default
    }
  }

  /** The failures the engine can report.
      - `ValidationError`: a required field was missing or blank, or a range had start > end;
      - `NotFound`: an update named a chain with no open version (raised as `ValueError`);
      - `DuplicateKey`: an insert collided with an existing `(RID, version)` primary key;
      - `DuplicateWorker`: a worker insert collided with an existing WID primary key;
      - `ForeignKeyViolation`: a resource row named a WID with no worker row;
      - `NulCharacter`: the database driver refused a string parameter holding
        U+0000 (psycopg2 raises `ValueError` before the statement is sent). */
  datatype Error =
    | ValidationError(message: string)
    | NotFound(rid: int)
    | DuplicateKey(rid: int, version: int)
    | DuplicateWorker(wid: int)
    | ForeignKeyViolation(wid: int)
    | NulCharacter

  /** The outcome of a check that returns nothing on success. */
  datatype Check = Pass | Fail(error: Error) {

    /** Runs `next` only when this check passes: the first failure wins, as
        when a sequence of validators raises at the first violation. */
    function Then(next: Check): (r: Check)
      ensures r.Pass? <==> Pass? && next.Pass?
      ensures Fail? ==> r == this
    {
      if Fail? then this else next
    }
  }

  /** The outcome of an operation that returns a value on success. */
  datatype Result<+T> = Ok(value: T) | Err(error: Error)
}
