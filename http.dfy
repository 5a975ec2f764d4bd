/** The HTTP side of the routers: status codes, response bodies, and the two
    checks FastAPI makes before a handler body runs (the `current_user`
    dependency and the request body's validation). */
module Http {
  import opened Outcomes
  import opened EntityStore

  /** What a response carries: a serialised model, a `{"detail": …}` error,
      a validation error naming the offending field, or nothing at all. */
  datatype Body<+T> = Payload(value: T) | Detail(message: string) | Invalid(field: string) | NoContent

  datatype Response<+T> = Response(status: int, body: Body<T>)

  /** A request against the database: its content afterwards and the response sent. */
  datatype Exchange<+T> = Exchange(db: Store, response: Response<T>)

  const StatusOk: int := 200
  const StatusCreated: int := 201
  const StatusNoContent: int := 204
  const StatusUnauthorized: int := 401
  const StatusForbidden: int := 403
  const StatusNotFound: int := 404
  const StatusUnprocessable: int := 422
  const StatusServerError: int := 500

  predicate Succeeded(status: int) { 200 <= status < 300 }

  /** `str(e)` for a KeyError: Python renders the key, here the message, with
      its quotes. */
  function KeyErrorDetail(msg: string): string {
    "'" + msg + "'"
  }

  /** Quoting keeps every piece of the message. */
  lemma KeyErrorDetailKeeps(msg: string, part: string)
    requires Contains(msg, part)
    ensures Contains(KeyErrorDetail(msg), part)
  {
    var i :| OccursAt(msg, part, i);
    var d := KeyErrorDetail(msg);
    assert d[i + 1..i + 1 + |part|] == msg[i..i + |part|];
    assert OccursAt(d, part, i + 1);
  }

  /** A not-found failure as a router sends it: 404 with the quoted message. */
  function NotFoundResponse<T>(msg: string): Response<T> {
    Response(StatusNotFound, Detail(KeyErrorDetail(msg)))
  }

  /** What `Depends(current_user)` answers for an anonymous request. */
  function NotAuthenticated<T>(): Response<T> {
    Response(StatusUnauthorized, Detail(UnauthorizedMessage))
  }

  /** An exception a handler does not catch becomes a 500. Its body is
      rendered here as a detail, although the server's fallback sends plain
      text; the request-level functions prove that no request reaches it. */
  function ServerError<T>(): Response<T> {
    Response(StatusServerError, Detail("Internal Server Error"))
  }

  /** The request body's `text` failed validation. */
  function TextRejected<T>(): Response<T> {
    Response(StatusUnprocessable, Invalid("text"))
  }

  /** A request body with a `text` field that is a non-empty string; `None`
      stands for a body without the field. */
  predicate ValidText(body: Option<string>) {
    body.Some? && |body.value| >= 1
  }

  /** Two outcomes of the same kind, whatever they carry. */
  predicate SameKind<T, U>(o1: Outcome<T>, o2: Outcome<U>) {
    && (o1.Ok? <==> o2.Ok?)
    && (o1.NotFound? <==> o2.NotFound?)
    && (o1.Unauthorized? <==> o2.Unauthorized?)
    && (o1.Forbidden? <==> o2.Forbidden?)
  }
}
