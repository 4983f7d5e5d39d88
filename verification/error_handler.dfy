/**
  The Express error handler of `src/helpers/ErrorHandler.js`: every error that
  reaches it becomes a JSON response; it never passes the error on.
 */
module ErrorHandler {
  import opened Js
  import opened Ledger
  import opened Http

  /** The response the handler sends: `res.status(status).json({ error })`. */
  datatype ErrorResponse = ErrorResponse(status: Value, error: Value)

  /**
    `errorHandler`: the status is `statusCode` if truthy, else `status` if
    truthy, else 500; the body carries `message` if truthy, else
    'Internal Server Error'.
   */
  function HandleError(err: ErrorObject): (r: ErrorResponse)
    ensures Truthy(r.status) && Truthy(r.error)
    ensures Truthy(err.statusCode) ==> r.status == err.statusCode
    ensures !Truthy(err.statusCode) && Truthy(err.status) ==> r.status == err.status
    ensures !Truthy(err.statusCode) && !Truthy(err.status) ==> r.status == FiveHundred
    ensures Truthy(err.message) <==> r.error == err.message
    ensures !Truthy(err.message) ==> r.error == Str("Internal Server Error")
  {
    var status := if Truthy(err.statusCode) then err.statusCode
                  else if Truthy(err.status) then err.status
                  else FiveHundred;
    var error := if Truthy(err.message) then err.message else Str("Internal Server Error");
    ErrorResponse(status, error)
  }

  /**
    A falsy `statusCode` (0, undefined, null, "", false, NaN) counts as absent:
    the handler answers exactly as if the error had none.
   */
  lemma FalsyStatusCodeFallsThrough(err: ErrorObject)
    requires !Truthy(err.statusCode)
    ensures HandleError(err) == HandleError(err.(statusCode := Undefined))
  {
  }

  /**
    Every error a service rejects with reaches the client as 500 with the
    service's message: the services never set a status.
   */
  lemma ServiceErrorsAre500(e: Ledger.Error)
    ensures HandleError(Rejection(e)) == ErrorResponse(FiveHundred, Str(Message(e)))
  {
    assert Message(e) != [] by {
      match e
      case NotNullViolation(column) =>
        assert |Message(e)| >= |"SQLITE_CONSTRAINT: NOT NULL constraint failed: Flight."|;
      case _ =>
    }
  }
}
