/** What a handler does with a request, and the two error middlewares
    (middleware/errorMiddleware.js): `notFound` for unmatched routes and
    `errorHandler` for everything passed to `next(error)`. */
module Http {
  import opened Base

  /** The result of one handler:
      - `Reply`: a success response with a body;
      - `Refuse`: `res.status(code).json({ message })`;
      - `Forward`: `next(error)`, answered by `errorHandler`;
      - `Unhandled`: the handler's promise rejects outside any `try`, so no
        response is written by the handler. */
  datatype Outcome<+R> =
    | Reply(status: int, body: R)
    | Refuse(status: int, message: string)
    | Forward(error: Error)
    | Unhandled(error: Error)

  /** The JSON body `errorHandler` writes. */
  datatype ErrorReply = ErrorReply(status: int, message: string, stack: Option<string>)

  /** `errorHandler(err, req, res, next)` given the status already set on the
      response and whether `NODE_ENV` is `production`: a response still
      marked 200 becomes a 500, any other status stays; the message is the
      error's; the stack is hidden in production. */
  function ErrorHandler(statusCode: int, err: Error, production: bool): (r: ErrorReply)
    ensures r.status != 200
    ensures statusCode != 200 ==> r.status == statusCode
    ensures statusCode == 200 ==> r.status == 500
    ensures r.message == err.message
    ensures r.stack.None? <==> production
    ensures r.stack.Some? ==> r.stack.value == StackHead(err)
  {
    var status := if statusCode == 200 then 500 else statusCode;
    ErrorReply(status, err.message, if production then None else Some(StackHead(err)))
  }

  /** `notFound(req, res, next)`: the status it sets and the error it
      forwards, naming the requested URL. */
  function NotFound(originalUrl: string): (int, Error)
  {
    (404, Error("Error", "Not Found - " + originalUrl))
  }

  /** An unmatched route is answered 404 with a message naming the URL, in
      every environment. */
  lemma UnmatchedRouteIs404(originalUrl: string, production: bool)
    ensures ErrorHandler(NotFound(originalUrl).0, NotFound(originalUrl).1, production).status == 404
    ensures ErrorHandler(NotFound(originalUrl).0, NotFound(originalUrl).1, production).message
              == "Not Found - " + originalUrl
  {
  }

  /** The status of the response a client receives: a forwarded error is
      answered by `errorHandler` while the response is still marked 200, so
      it becomes a 500; an unhandled rejection leaves the request without a
      response (`None`). */
  function ResponseStatus<R>(o: Outcome<R>, production: bool): (status: Option<int>)
    ensures status.None? <==> o.Unhandled?
    ensures o.Forward? ==> status == Some(500)
    ensures o.Reply? || o.Refuse? ==> status == Some(o.status)
  {
    match o
    case Reply(s, _) => Some(s)
    case Refuse(s, _) => Some(s)
    case Forward(e) => Some(ErrorHandler(200, e, production).status)
    case Unhandled(_) => None
  }
}
