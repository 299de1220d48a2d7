# AssetTrackerPro in Dafny

AssetTrackerPro is an inventory backend: departments, their employees, and the physical assets handed to
employees, exposed over HTTP behind Basic authentication. This project models three pieces of it.

- **The Basic-auth gate** (`BasicAuth`, auth.dfy). `HandleAuthenticateAsync` is a pure function from the
  `Authorization` header, the Users table, a Base64+UTF-8 decoder and a password verifier to
  `NoResult`, `Fail(reason)` or `Authenticated(id, name)`. `HandleChallengeAsync` is a method that writes the
  `WWW-Authenticate` header in place.
- **The entity store** (`Store`, store.dfy). The four tables are maps from identity value to row.
  `Consistent` is the set of constraints `OnModelCreating` configures:
  - unique names, emails, serial numbers and usernames;
  - the two foreign keys;
  - required columns and their widths.
  The class `AssetTrackerDbContext` holds the tables. It performs the writes a `SaveChanges` sends: a row the
  constraints reject changes nothing. Deletes follow the two configured rules. A department's employees go
  with it (cascade), and an employee's assets lose their owner (set null). Both rules are loops over the
  dependents, proved equal to `DeleteDepartment` / `DeleteEmployees`.
- **The controller actions and the exception middleware** (`DepartmentsController`, `EmployeesController`,
  `AssetsController`, `Http`, `Middleware`):
  - Reads are functions over the tables.
  - Writes are methods on the context. Each write states its outcome for every branch, the new tables,
    the two identity counters, and that all else is unchanged. An insert takes its table's next identity
    value, so an id freed by a delete is never handed out again.
  - An exception that reaches the middleware is classified into a status code and an `ErrorResponse`.

Shared .NET behaviour lives in `Text`:
- `char.IsWhiteSpace`, `Trim` and `IsNullOrWhiteSpace`;
- the ordinal ignore-case prefix test;
- `IndexOf` and `int.ToString`.

`Ids` holds the ascending id order in which the model lists query results.

Behaviour of the code that the model keeps:
- `PasswordVerificationResult.SuccessRehashNeeded` authenticates; only `Failed` rejects
  (`BasicAuth.CheckCredentials`).
- A write that the database's unique index rejects reaches the client as a `DbUpdateException`. The middleware
  answers it with 400 and a fixed message, never with 409 (`Middleware.UniqueViolationIsBadRequest`).
- The order of the middleware's typed arms does not matter: `DbUpdateException`, `ArgumentException` and
  `KeyNotFoundException` share no subclass. Only the catch-all arm must come last
  (`Middleware.TypedArmsDisjoint`).
- Column widths are counted in UTF-16 code units, as `nvarchar(n)` counts them (`Text.Utf16Length`): a character
  outside the Basic Multilingual Plane takes two.

## Model

| member | source | states |
|---|---|---|
| Text.IsWhiteSpace | AssetTrackerPro.Api/Auth/BasicAuthenticationHandler.cs:41-42 | `char.IsWhiteSpace`: space, tab, line feed and carriage return are white space; no printable ASCII character is |
| Text.IsNullOrWhiteSpace | AssetTrackerPro2.Api/Controllers/EmployeesController.cs:22-30 | `string.IsNullOrWhiteSpace` holds exactly when the string is null or trims to the empty string |
| Text.Trim | AssetTrackerPro.Api/Auth/BasicAuthenticationHandler.cs:41 | `string.Trim()`: the result is an infix of the input; everything before and after it is white space, and it neither starts nor ends with white space |
| Text.TrimBlank | AssetTrackerPro.Api/Auth/BasicAuthenticationHandler.cs:41-42 | a trimmed text is null-or-white-space exactly when it is empty, and it is empty exactly when the untrimmed text is all white space |
| Text.StartsWithIgnoreCase | AssetTrackerPro.Api/Auth/BasicAuthenticationHandler.cs:36 | the ordinal ignore-case prefix test holds exactly when the prefix fits and each character equals the prefix's or is its other-case ASCII letter; an exact prefix always passes |
| Text.IndexOf | AssetTrackerPro.Api/Auth/BasicAuthenticationHandler.cs:58 | `IndexOf(':')` is -1 exactly when there is no colon; otherwise it is the position of the first colon |
| Text.Decimal | AssetTrackerPro.Api/Auth/BasicAuthenticationHandler.cs:84 | `int.ToString()` starts with '-' exactly for negative numbers, every other character is a digit, the digits read back as the number's absolute value, and there is no leading zero |
| Text.Utf16Length | AssetTrackerPro.Infrastructure/Data/AssetTrackerDbContext.cs:20-57 | the length `nvarchar(n)` measures: between one and two units per character, and exactly one per character when all lie in the Basic Multilingual Plane |
| Text.DecimalInjective | AssetTrackerPro2.Api/Controllers/AssetsController.cs:27 | two ids with the same decimal text are the same id, so string ids stay distinct |
| Ids.SortedIds | AssetTrackerPro2.Api/Controllers/AssetsController.cs:21-49 | the list order of query results: every id of the table exactly once, in strictly increasing order |
| Ids.Min | AssetTrackerPro.Api/Auth/BasicAuthenticationHandler.cs:67-69 | the least element of a non-empty set of ids, which belongs to the set |
| Store.Consistent | AssetTrackerPro.Infrastructure/Data/AssetTrackerDbContext.cs:18-67 | the configured constraints; in a consistent database every assigned asset's owner exists and belongs to an existing department |
| Store.DeleteEmployees | AssetTrackerPro.Infrastructure/Data/AssetTrackerDbContext.cs:42-45 | deleting employees removes exactly those keys; every asset stays, and an asset ends up unowned exactly when it was unowned or owned by a deleted employee; departments and users are untouched |
| Store.DeleteDepartment | AssetTrackerPro.Infrastructure/Data/AssetTrackerDbContext.cs:28-31 | the cascade removes exactly that department and exactly the employees in it; every asset and user stays |
| Store.PutDepartmentExact | AssetTrackerPro.Infrastructure/Data/AssetTrackerDbContext.cs:20-31 | writing a department row keeps the database consistent if and only if the name is unused by the other rows and the row fits its columns |
| Store.PutEmployeeExact | AssetTrackerPro.Infrastructure/Data/AssetTrackerDbContext.cs:28-46 | writing an employee row keeps the database consistent if and only if its email is unused by the others, its department exists and it fits its columns |
| Store.PutAssetExact | AssetTrackerPro.Infrastructure/Data/AssetTrackerDbContext.cs:42-57 | writing an asset row keeps the database consistent if and only if its serial number is unused by the others, its owner is null or exists, and it fits its columns |
| Store.DeleteEmployeesKeeps | AssetTrackerPro.Infrastructure/Data/AssetTrackerDbContext.cs:42-45 | deleting employees and setting their assets' owner to null keeps every constraint |
| Store.DeleteDepartmentKeeps | AssetTrackerPro.Infrastructure/Data/AssetTrackerDbContext.cs:28-31 | the cascade delete of a department keeps every constraint |
| Store.DeleteDepartmentEffect | AssetTrackerPro.Infrastructure/Data/AssetTrackerDbContext.cs:28-31 | under a department delete every asset survives, and only its owner may change: it becomes null exactly when the asset was unowned or held by an employee whose DepartmentId is that department |
| Store.DeleteEmployeeEffect | AssetTrackerPro.Infrastructure/Data/AssetTrackerDbContext.cs:42-45 | under an employee delete every asset survives; each asset that employee owned gets a null owner, and every other asset is unchanged |
| Store.DeleteEmployeesCompose | AssetTrackerPro.Infrastructure/Data/AssetTrackerDbContext.cs:28-45 | deleting one group of employees and then another equals deleting both groups at once, so a cascade may delete the staff one by one |
| Store.NextId | AssetTrackerPro.Infrastructure/Data/AssetTrackerDbContext.cs:23 | the next identity value is positive and above every id in use |
| Store.AssetTrackerDbContext.constructor | AssetTrackerPro.Infrastructure/Data/AssetTrackerDbContext.cs:8-11 | a context over consistent tables is valid and holds exactly those tables |
| Store.AssetTrackerDbContext.AddDepartment | AssetTrackerPro.Infrastructure/Data/AssetTrackerDbContext.cs:20-31 | an insert succeeds if and only if the row is admissible; it then adds exactly that row under the department identity's next value, which advances by one, and otherwise nothing changes; the employee identity never moves; the invariant is preserved |
| Store.AssetTrackerDbContext.UpdateDepartment | AssetTrackerPro.Infrastructure/Data/AssetTrackerDbContext.cs:20-31 | a save of a changed row succeeds if and only if the row is admissible beside the others; only that row changes, or nothing; both identity counters are kept |
| Store.AssetTrackerDbContext.AddEmployee | AssetTrackerPro.Infrastructure/Data/AssetTrackerDbContext.cs:34-46 | an insert succeeds if and only if the row is admissible (unique email, existing department, widths); the new row appears under the employee identity's next value, which advances by one, and nothing else changes; the department identity never moves |
| Store.AssetTrackerDbContext.UpdateEmployee | AssetTrackerPro.Infrastructure/Data/AssetTrackerDbContext.cs:34-46 | a save of a changed employee succeeds if and only if the row is admissible beside the others; only that row changes, or nothing; both identity counters are kept |
| Store.AssetTrackerDbContext.UpdateAsset | AssetTrackerPro.Infrastructure/Data/AssetTrackerDbContext.cs:48-57 | a save of a changed asset succeeds if and only if the row is admissible beside the others; only that row changes, or nothing; both identity counters are kept |
| Store.AssetTrackerDbContext.ReleaseAssets | AssetTrackerPro.Infrastructure/Data/AssetTrackerDbContext.cs:42-45 | the set-null rule, one asset at a time: the loop leaves every asset the employee owned without an owner and every other row, table and counter as it was |
| Store.AssetTrackerDbContext.RemoveEmployee | AssetTrackerPro.Infrastructure/Data/AssetTrackerDbContext.cs:42-45 | releasing the employee's assets and then removing the row leaves the tables equal to `DeleteEmployees(old, {id})`, keeps the invariant and both identity counters |
| Store.AssetTrackerDbContext.RemoveDepartment | AssetTrackerPro.Infrastructure/Data/AssetTrackerDbContext.cs:28-31 | the loop over the department's staff leaves the tables equal to `DeleteDepartment(old, id)`, keeps the invariant and both identity counters |
| Middleware.Code | AssetTrackerPro.Api/Middleware/ExceptionHandlingMiddleware.cs:38 | `(int)statusCode` is one of 400, 404, 500 |
| Middleware.Classify | AssetTrackerPro.Api/Middleware/ExceptionHandlingMiddleware.cs:28-34 | a `DbUpdateException` (or subclass) gives 400 with the fixed text; an `ArgumentException` (or subclass) gives 400 with its own message; a `KeyNotFoundException` gives 404 with its own message; 500 with the generic text happens exactly when no typed arm matches |
| Middleware.HandleException | AssetTrackerPro.Api/Middleware/ExceptionHandlingMiddleware.cs:28-44 | the payload's status is the classified code (the one the response gets), its message the classified text, and its trace id the request's |
| Middleware.MessageNotLeaked | AssetTrackerPro.Api/Middleware/ExceptionHandlingMiddleware.cs:30-33 | outside the argument and missing-key arms, the payload does not depend on the exception's message at all |
| Middleware.TypedArmsDisjoint | AssetTrackerPro.Api/Middleware/ExceptionHandlingMiddleware.cs:28-34 | reordering the three typed arms gives the same result; only the catch-all must stay last |
| Middleware.UniqueViolationIsBadRequest | AssetTrackerPro.Api/Middleware/ExceptionHandlingMiddleware.cs:30 | a database update failure is answered 400 with the fixed message, never 409 |
| Http.StatusCode | AssetTrackerPro.Api/Middleware/ExceptionHandlingMiddleware.cs:28-44 | the status the client sees: 400 for BadRequest, 404 for NotFound, 409 for Conflict; an escaping exception gets the middleware's status |
| DepartmentsController.DeptNameInUse | AssetTrackerPro2.Api/Controllers/DepartmentsController.cs:73 | the controller's name check agrees with the unique index: a fitting department row is admissible exactly when its name is not in use |
| DepartmentsController.DeptNameInUseByOther | AssetTrackerPro2.Api/Controllers/DepartmentsController.cs:113 | another department has the name exactly when the name is in use among the departments other than this one |
| DepartmentsController.ItemsOfSorted | AssetTrackerPro2.Api/Controllers/DepartmentsController.cs:51-60 | projecting a set of employee ids in id order gives one item per id, each the stored row of an id in the set, every id of the set present, in strictly increasing id order |
| DepartmentsController.EmployeeItems | AssetTrackerPro2.Api/Controllers/DepartmentsController.cs:51-60 | exactly the employees whose DepartmentId is the department, each once, in id order, with their stored name and email |
| DepartmentsController.GetAll | AssetTrackerPro2.Api/Controllers/DepartmentsController.cs:20-40 | one entry per department |
| DepartmentsController.GetAllSpec | AssetTrackerPro2.Api/Controllers/DepartmentsController.cs:20-40 | every department appears, in id order, each with its stored name and location and exactly its own employees |
| DepartmentsController.GetEmployees | AssetTrackerPro2.Api/Controllers/DepartmentsController.cs:43-63 | NotFound if and only if the department is missing; otherwise exactly that department's employees |
| DepartmentsController.Create | AssetTrackerPro2.Api/Controllers/DepartmentsController.cs:66-97 | a blank name gives 400 and a name in use gives 409, each leaving the store unchanged; otherwise one department with the given name and location and no employees is added under the department identity's next value, which advances by one, nothing else changes (the employee identity included), and the response echoes it (or the save is rejected and nothing changes) |
| DepartmentsController.Update | AssetTrackerPro2.Api/Controllers/DepartmentsController.cs:100-143 | a missing id gives 404. A blank or unchanged name is kept without a uniqueness check, and a changed name held by another department gives 409 with nothing saved. A non-null location (even empty) overwrites. Otherwise only that row changes, and the response lists its employees. Neither identity counter moves |
| DepartmentsController.Delete | AssetTrackerPro2.Api/Controllers/DepartmentsController.cs:146-158 | a missing id gives 404 and no change; otherwise 204, the tables become `DeleteDepartment(old, id)`, and the department is afterwards not found; neither identity counter moves, so a later insert never reuses the id |
| EmployeesController.EmailInUse | AssetTrackerPro2.Api/Controllers/EmployeesController.cs:38 | the controller's email check agrees with the unique index: a fitting employee row with an existing department is admissible exactly when its email is not in use |
| EmployeesController.EmailInUseByOther | AssetTrackerPro2.Api/Controllers/EmployeesController.cs:102 | another employee has the email exactly when the email is in use among the employees other than this one |
| EmployeesController.GetById | AssetTrackerPro2.Api/Controllers/EmployeesController.cs:66-84 | NotFound if and only if the id is missing; otherwise the stored fields unchanged |
| EmployeesController.Create | AssetTrackerPro2.Api/Controllers/EmployeesController.cs:20-63 | checks run in this order, each failure leaving the store unchanged: blank full name gives 400, blank email 400, missing department 400, email in use 409. After the checks, the save is rejected (nothing changes) exactly when the row does not fit its columns. On success one employee with the given fields is added under the employee identity's next value, which advances by one, nothing else changes (the department identity included), and the response echoes it and equals `GetById` of the new id |
| EmployeesController.Update | AssetTrackerPro2.Api/Controllers/EmployeesController.cs:87-131 | a missing id gives 404. The name changes only if non-blank. The email changes only if non-blank and different, and gives 409 if another employee has it. The department changes only if given and different, and gives 400 if missing. Any early return saves nothing, the name included. On success only that row changes, and the response equals `GetById`. Neither identity counter moves |
| EmployeesController.Delete | AssetTrackerPro2.Api/Controllers/EmployeesController.cs:134-146 | a missing id gives 404 and no change; otherwise 204 and the tables become `DeleteEmployees(old, {id})`; either way the employee is afterwards not found and neither identity counter moves, so a later insert never reuses the id |
| AssetsController.EmployeeItemOf | AssetTrackerPro2.Api/Controllers/AssetsController.cs:31-46 | the owner's id, name, email and DepartmentId as stored, with department details exactly when the department exists |
| AssetsController.AssetItemOf | AssetTrackerPro2.Api/Controllers/AssetsController.cs:25-48 | the asset's id as decimal text, its name, serial number and purchase date, and an employee part exactly when the owner exists |
| AssetsController.GetAll | AssetTrackerPro2.Api/Controllers/AssetsController.cs:19-52 | one item per asset |
| AssetsController.GetAllSound | AssetTrackerPro2.Api/Controllers/AssetsController.cs:21-49 | every item is the projection of some asset |
| AssetsController.GetAllComplete | AssetTrackerPro2.Api/Controllers/AssetsController.cs:21-49 | every asset has its item in the list |
| AssetsController.GetAllDistinct | AssetTrackerPro2.Api/Controllers/AssetsController.cs:27 | no two items share an id, so each asset appears exactly once |
| AssetsController.AssetItemConsistent | AssetTrackerPro2.Api/Controllers/AssetsController.cs:31-45 | in a consistent database an item's employee is null exactly when the asset is unassigned, and an assigned item carries its owner's id and the owner's department |
| AssetsController.AssignAsset | AssetTrackerPro2.Api/Controllers/AssetsController.cs:54-76 | a missing asset gives 404 and an unknown non-null employee gives 400, each with no change. Otherwise (a null id always qualifies) 204, and the database never rejects the save. Only that asset's owner changes, and the list then shows the new owner. Neither identity counter moves |
| BasicAuth.SplitCredentials | AssetTrackerPro.Api/Auth/BasicAuthenticationHandler.cs:58-65 | a format error exactly when there is no colon or the text starts with one; otherwise name + ":" + password is the decoded text, and the name is non-empty and colon-free |
| BasicAuth.SplitJoin | AssetTrackerPro.Api/Auth/BasicAuthenticationHandler.cs:58-65 | joining a non-empty colon-free name to any password (colons allowed) and splitting gives both back |
| BasicAuth.Token | AssetTrackerPro.Api/Auth/BasicAuthenticationHandler.cs:41 | the trimmed text after the 6-character prefix is empty exactly when that text is all white space |
| BasicAuth.HeaderCredentials | AssetTrackerPro.Api/Auth/BasicAuthenticationHandler.cs:58-65 | the credentials of a header that passes every parsing check rejoin, with one colon, to the decoded token, and the name is non-empty and colon-free |
| BasicAuth.ParseHeader | AssetTrackerPro.Api/Auth/BasicAuthenticationHandler.cs:30-65 | in order: no header or no case-insensitive "Basic " prefix gives no result; an empty token gives credentials-missing; an undecodable token gives invalid-Base64; a bad split gives invalid-format; the header parses exactly when it passes every one of these checks, and then yields the credentials the decoded text carries |
| BasicAuth.Matching | AssetTrackerPro.Api/Auth/BasicAuthenticationHandler.cs:67-69 | exactly the ids of the users with that name; under the unique username index there is at most one |
| BasicAuth.CheckCredentials | AssetTrackerPro.Api/Auth/BasicAuthenticationHandler.cs:67-91 | success if and only if a user with that name exists and the verifier does not answer Failed (so SuccessRehashNeeded succeeds); success carries that user's id as text and the name; an unknown user and a wrong password give the same failure |
| BasicAuth.Authenticate | AssetTrackerPro.Api/Auth/BasicAuthenticationHandler.cs:28-92 | no result exactly when the header is absent or not Basic; credentials-missing, invalid-Base64 and invalid-format each exactly when the header fails that parsing check; authenticated exactly when the header parses and a user with that name exists whom the verifier does not reject, and then with that user's id and name; invalid-credentials exactly when the header parses and no such user is accepted |
| BasicAuth.StoreConsultedLast | AssetTrackerPro.Api/Auth/BasicAuthenticationHandler.cs:67-80 | while parsing fails, the outcome is the same for every user table and every verifier |
| BasicAuth.BasicRoundTrip | AssetTrackerPro.Api/Auth/BasicAuthenticationHandler.cs:36-91 | a header with the scheme in any letter case and a token (surrounding white space allowed) whose trimmed text decodes to name:password parses to exactly those credentials and authenticates exactly when that user exists and the verifier does not answer Failed |
| BasicAuth.HandleChallenge | AssetTrackerPro.Api/Auth/BasicAuthenticationHandler.cs:94-98 | the new headers are the old ones with `WWW-Authenticate` set to `Basic`, and the status is 401 |

## Left out

- I/O and asynchrony: every `await` is a plain step, and each action is one atomic sequential method.
- Concurrency: two requests racing between a pre-check and the insert are not modelled. In the sequential
  model the pre-checks are exact, so a rejected save (`Threw`) only happens for a value wider than its column.
- Entity Framework itself (change tracking, `Include`, `AsNoTracking`, SQL generation) is not modelled. The
  database is the tables plus `Consistent`; a save succeeds exactly when the written row keeps them consistent.
- Identity values consumed by a failed insert are not modelled: a rejected insert does not advance the counter.
- The 32-bit range of the `int` identity columns is not modelled: ids are unbounded integers, so an insert never
  fails because the identity overflows.
- Database collation: names, emails, serial numbers and usernames are compared by exact equality, both in the
  queries and in the unique indexes.
- List order: the queries have no `ORDER BY`, so the database picks the order; the model returns rows in
  ascending id order.
- Text.AsciiUpper: the ordinal ignore-case prefix test folds ASCII letters only. Non-ASCII letters whose
  invariant upper case is an ASCII letter (such as U+0131 and U+017F) are not folded.
- Base64 and UTF-8 decoding are a parameter `decode`. No round-trip fact is assumed about it.
- `PasswordHasher<Users>.VerifyHashedPassword` is a parameter `verify`; its hashing is not modelled.
- The user lookup reads the Users table directly and requires the unique username index to hold. The
  exception `SingleOrDefault` would throw on duplicates cannot arise.
- `Authorization` headers with several values: the model takes the header as one already-joined string.
- The `AuthenticationHandler` base class is left out: its dispatch, claims, tickets and scheme options. Success
  is the pair (id text, username), and the challenge's 401 is written directly.
- Null request strings: `Create` requests carry plain strings, so JSON `null` for `FullName`, `Email` or
  `DeptName` is not modelled.
- The middleware's logging, its JSON serialisation and its response writing are not modelled; neither are
  exception subclasses beyond the ones listed in `ExceptionType`.
- Message texts are tags (`Http.Message`, `BasicAuth.FailReason`), with the Turkish text beside each tag; the
  two fixed middleware texts are string constants.
- `PurchaseDate` is an opaque value, carried from the row to the list item.
- The controllers never create assets or users, so the model has no action for that. Rows of those tables
  reach the store only through the context's constructor.
- `DatabaseSeeder.cs` and `Program.cs` are not part of this model. They hold the seeding, the dependency
  injection, the routing, and the fallback policy that leaves `/api/ping` public.
