/**
 * The rows of the four tables. The primary key `Id` of each entity is the key
 * of its table's map (see module Store), so it is not repeated in the records.
 * Navigation properties (`Department.Employees`, `Employee.Assets`, ...) are
 * not stored: they are the foreign keys read the other way round.
 */
module Entities {
  import opened Wrappers
  import opened Text

  /** `DateTime`, kept opaque: only carried from the row to the response. */
  datatype DateTime = DateTime(ticks: int)

  datatype Department = Department(deptName: string, location: Option<string>)

  datatype Employee = Employee(fullName: string, email: string, departmentId: int)

  datatype Asset = Asset(
    assetName: string,
    serialNumber: string,
    assetType: string,
    purchaseDate: DateTime,
    employeeId: Option<int>)

  datatype User = User(username: string, passwordHash: string)

  // Column widths configured on the model (`HasMaxLength`), in UTF-16 code units (`nvarchar(n)`).
  const MaxDeptName := 200
  const MaxLocation := 200
  const MaxFullName := 200
  const MaxEmail := 320
  const MaxAssetName := 200
  const MaxSerialNumber := 100
  const MaxAssetType := 100
  const MaxUsername := 100
  const MaxPasswordHash := 500

  /** A department row fits its columns. */
  predicate FitsDepartment(d: Department) {
    Utf16Length(d.deptName) <= MaxDeptName && (d.location.Some? ==> Utf16Length(d.location.value) <= MaxLocation)
  }

  predicate FitsEmployee(e: Employee) {
    Utf16Length(e.fullName) <= MaxFullName && Utf16Length(e.email) <= MaxEmail
  }

  predicate FitsAsset(a: Asset) {
    Utf16Length(a.assetName) <= MaxAssetName && Utf16Length(a.serialNumber) <= MaxSerialNumber
    && Utf16Length(a.assetType) <= MaxAssetType
  }

  predicate FitsUser(u: User) {
    Utf16Length(u.username) <= MaxUsername && Utf16Length(u.passwordHash) <= MaxPasswordHash
  }
}
