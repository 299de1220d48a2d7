/**
 * `ExceptionHandlingMiddleware.Invoke`: an exception that escapes the rest of
 * the pipeline is turned into a status code and an `ErrorResponse` payload.
 * The switch matches on the exception's type, so a subclass takes the arm of
 * its base class; the first matching arm wins.
 */
module Middleware {

  /** The exception types the switch can see, with the subclasses that matter to its type patterns. */
  datatype ExceptionType =
    | DbUpdateException
    | DbUpdateConcurrencyException   // : DbUpdateException
    | ArgumentException
    | ArgumentNullException          // : ArgumentException
    | ArgumentOutOfRangeException    // : ArgumentException
    | KeyNotFoundException
    | InvalidOperationException
    | OtherException

  datatype Exception = Exception(kind: ExceptionType, message: string)

  predicate IsDbUpdateException(k: ExceptionType) {
    k == DbUpdateException || k == DbUpdateConcurrencyException
  }

  predicate IsArgumentException(k: ExceptionType) {
    k == ArgumentException || k == ArgumentNullException || k == ArgumentOutOfRangeException
  }

  predicate IsKeyNotFoundException(k: ExceptionType) {
    k == KeyNotFoundException
  }

  datatype HttpStatusCode = BadRequest | NotFound | InternalServerError

  /** `(int)statusCode`. */
  function Code(s: HttpStatusCode): (n: int)
    ensures n in {400, 404, 500}
  {
    match s
    case BadRequest => 400
    case NotFound => 404
    case InternalServerError => 500
  }

  const DbUpdateFailedMessage := "Veritabanı güncellemesi başarısız."
  const UnexpectedErrorMessage := "Beklenmeyen sunucu hatası."

  /** The `ex switch { ... }` expression. */
  function Classify(ex: Exception): (r: (HttpStatusCode, string))
    ensures IsDbUpdateException(ex.kind) ==> r == (BadRequest, DbUpdateFailedMessage)
    ensures IsArgumentException(ex.kind) ==> r == (BadRequest, ex.message)
    ensures IsKeyNotFoundException(ex.kind) ==> r == (NotFound, ex.message)
    ensures r.0 == InternalServerError <==>
      !IsDbUpdateException(ex.kind) && !IsArgumentException(ex.kind) && !IsKeyNotFoundException(ex.kind)
    ensures r.0 == InternalServerError ==> r.1 == UnexpectedErrorMessage
  {
    if IsDbUpdateException(ex.kind) then (BadRequest, DbUpdateFailedMessage)
    else if IsArgumentException(ex.kind) then (BadRequest, ex.message)
    else if IsKeyNotFoundException(ex.kind) then (NotFound, ex.message)
    else (InternalServerError, UnexpectedErrorMessage)
  }

  datatype ErrorResponse = ErrorResponse(status: int, message: string, traceId: string)

  /** The payload written for `ex` on a request whose `TraceIdentifier` is `traceId`; the response's status code is `Status`. */
  function HandleException(ex: Exception, traceId: string): (r: ErrorResponse)
    ensures r.status == Code(Classify(ex).0) && r.message == Classify(ex).1
    ensures r.traceId == traceId
    ensures r.status in {400, 404, 500}
  {
    var (status, message) := Classify(ex);
    ErrorResponse(Code(status), message, traceId)
  }

  /** Only an argument or a missing-key exception shows its own text; for every other exception the payload does not depend on the text at all. */
  lemma MessageNotLeaked(k: ExceptionType, m1: string, m2: string, traceId: string)
    requires !IsArgumentException(k) && !IsKeyNotFoundException(k)
    ensures HandleException(Exception(k, m1), traceId) == HandleException(Exception(k, m2), traceId)
  {
  }

  /** The three typed arms never overlap, so only the position of the catch-all arm matters: reordering the typed arms gives the same result. */
  lemma TypedArmsDisjoint(ex: Exception)
    ensures Classify(ex) ==
      if IsKeyNotFoundException(ex.kind) then (NotFound, ex.message)
      else if IsArgumentException(ex.kind) then (BadRequest, ex.message)
      else if IsDbUpdateException(ex.kind) then (BadRequest, DbUpdateFailedMessage)
      else (InternalServerError, UnexpectedErrorMessage)
  {
  }

  /** A unique-index violation that the database reports is a `DbUpdateException`, and it answers 400, not 409. */
  lemma UniqueViolationIsBadRequest(message: string, traceId: string)
    ensures HandleException(Exception(DbUpdateException, message), traceId).status == 400
    ensures HandleException(Exception(DbUpdateException, message), traceId).message == DbUpdateFailedMessage
  {
  }
}
