/**
 * What a route handler hands back to the web framework: a response body with
 * its status, a `None` return, a raised `HTTPException`, or an exception the
 * handler does not catch (the framework answers those with status 500).
 */
module Http {

  const BAD_REQUEST := 400
  const UNAUTHORIZED := 401
  const FORBIDDEN := 403
  const NOT_FOUND := 404

  /** Exceptions a handler raises without meaning to. */
  datatype Fault =
    | MissingRow       // attribute read on the `None` a query returned for an absent row
    | MissingCaller    // attribute read on a `None` current user
    | IntegrityError   // the store refuses the write: unique, not-null or foreign-key violation
    | DataError        // a string longer than its String(n) column
    | ValidationError  // a request or token model is missing a required field
    | UnknownField     // assignment to a field the request model does not declare
    | InvalidKeyword   // an ORM record built with a keyword that is not one of its attributes
    | NotAwaitable     // `await` applied to a value that is not awaitable
    | UpdateKeywords   // `Query.update` given its values as keyword arguments instead of one map

  datatype Error =
    | HttpError(status: int, detail: string, headers: map<string, string>)
    | Crash(fault: Fault)

  datatype Outcome<+T> =
    | Ok(value: T)        // status 200 with a body
    | Created(value: T)   // status 201 with a body
    | Null                // the handler returned None: status 200, body null
    | Fail(error: Error)

  /** An `HTTPException` raised with the given status and detail and no extra headers. */
  function Raise<T>(status: int, detail: string): Outcome<T> {
    Fail(HttpError(status, detail, map[]))
  }

  /** An exception the handler does not catch. */
  function Abort<T>(fault: Fault): Outcome<T> {
    Fail(Crash(fault))
  }
}
