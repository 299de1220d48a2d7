/**
 * What a controller action hands back to the framework: `Ok`, `CreatedAtAction`,
 * `NoContent`, `BadRequest`, `NotFound`, `Conflict`, or an exception that
 * escapes to `ExceptionHandlingMiddleware`.
 */
module Http {
  import Middleware

  /** The fixed (Turkish) texts the controllers answer with, as tags. */
  datatype Message =
    | DepartmentNameRequired   // "Departman adı zorunludur."
    | DepartmentNameNotUnique  // "Departman adı benzersiz olmalıdır."
    | DepartmentNotFound       // "Departman bulunamadı."
    | FullNameRequired         // "Ad soyad zorunludur."
    | EmailRequired            // "E-posta zorunludur."
    | EmailNotUnique           // "E-posta benzersiz olmalıdır."
    | EmployeeNotFound         // "Çalışan bulunamadı."
    | AssetNotFound            // "Varlık bulunamadı."

  datatype ActionResult<T> =
    | Ok(value: T)
    | Created(value: T)
    | NoContent
    | BadRequest(message: Message)
    | NotFound(message: Message)
    | Conflict(message: Message)
    | Threw(error: Middleware.Exception)

  /** The status code the client sees; an escaping exception is answered by the middleware. */
  function StatusCode<T>(r: ActionResult<T>): (n: int)
    ensures n in {200, 201, 204, 400, 404, 409, 500}
    ensures r.BadRequest? ==> n == 400
    ensures r.Conflict? ==> n == 409
    ensures r.NotFound? ==> n == 404
    ensures r.Threw? ==> n == Middleware.HandleException(r.error, "").status
  {
    match r
    case Ok(_) => 200
    case Created(_) => 201
    case NoContent => 204
    case BadRequest(_) => 400
    case NotFound(_) => 404
    case Conflict(_) => 409
    case Threw(ex) => Middleware.HandleException(ex, "").status
  }

  /** The exception `SaveChanges` throws when the database rejects the write. */
  const SaveRejected := Middleware.Exception(Middleware.DbUpdateException,
    "An error occurred while saving the entity changes. See the inner exception for details.")
}
