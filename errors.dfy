/** Python exceptions raised inside the handlers and the HTTP results they become. */
module Errors {
  import opened Decimal

  /** An exception: FastAPI's HTTPException with a status code and detail, or any other exception
      (TypeError, ValueError, a database error, ...) carrying its message text. */
  datatype Exception = HttpException(statusCode: int, detail: string) | Error(message: string)

  /** The outcome of a Python computation that either returns a value or raises. */
  datatype Fallible<+T> = Returned(value: T) | Raised(exception: Exception)

  /** What an endpoint sends back: a JSON body, or an error status with its detail. */
  datatype HttpResult<+T> = Ok(body: T) | Err(status: int, detail: string)

  /** `str(e)`: an HTTPException prints as "<status>: <detail>", other exceptions as their message. */
  function ExceptionText(e: Exception): string {
    match e
    case HttpException(code, detail) => IntToString(code) + ": " + detail
    case Error(message) => message
  }

  /** The handlers' `except Exception as e: raise HTTPException(status_code=500, detail=str(e))`.
      It catches every exception, an HTTPException raised in the `try` included. */
  function CatchAll<T>(f: Fallible<T>): (r: HttpResult<T>)
    ensures r.Ok? <==> f.Returned?
    ensures f.Returned? ==> r.body == f.value
    ensures r.Err? ==> r.status == 500 && r.detail == ExceptionText(f.exception)
  {
    match f
    case Returned(v) => Ok(v)
    case Raised(e) => Err(500, ExceptionText(e))
  }

  /** The evidently intended handler: an HTTPException raised in the `try` passes through with its
      own status, and only other exceptions become 500. */
  function CatchOthers<T>(f: Fallible<T>): (r: HttpResult<T>)
    ensures r.Ok? <==> f.Returned?
    ensures f.Returned? ==> r.body == f.value
    ensures f.Raised? && f.exception.HttpException? ==>
              r == Err(f.exception.statusCode, f.exception.detail)
    ensures f.Raised? && f.exception.Error? ==> r == Err(500, f.exception.message)
  {
    match f
    case Returned(v) => Ok(v)
    case Raised(HttpException(code, detail)) => Err(code, detail)
    case Raised(Error(message)) => Err(500, message)
  }

  /** A 404 raised inside a handler's `try` reaches the caller as a 500 whose detail starts "404: ". */
  lemma NotFoundBecomesServerError<T>(detail: string)
    ensures CatchAll<T>(Raised(HttpException(404, detail))) == Err(500, "404: " + detail)
  {
    assert IntToString(404) == "404" by {
      assert NatToString(404) == NatToString(40) + [DigitChar(4)];
      assert NatToString(40) == NatToString(4) + [DigitChar(0)];
    }
  }
}
