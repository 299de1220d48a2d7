/**
 * `EmployeesController`: create, read, update and delete one employee.
 */
module EmployeesController {
  import opened Wrappers
  import opened Text
  import opened Entities
  import opened Store
  import opened Http

  datatype EmployeeItem = EmployeeItem(id: int, fullName: string, email: string, departmentId: int)

  datatype CreateEmployeeRequest = CreateEmployeeRequest(fullName: string, email: string, departmentId: int)

  datatype UpdateEmployeeRequest = UpdateEmployeeRequest(
    fullName: Option<string>, email: Option<string>, departmentId: Option<int>)

  /** Some employee has the address `email`. */
  predicate EmailInUse(employees: map<int, Employee>, email: string)
    ensures forall departments: map<int, Department>, e: Employee | e.email == email ::
      EmployeeAdmissible(departments, employees, e) <==>
        FitsEmployee(e) && e.departmentId in departments && !EmailInUse(employees, email)
  {
    exists k | k in employees :: employees[k].email == email
  }

  /** Some employee other than `id` has the address `email`. */
  predicate EmailInUseByOther(employees: map<int, Employee>, id: int, email: string)
    ensures EmailInUseByOther(employees, id, email) <==> EmailInUse(employees - {id}, email)
  {
    assert forall k | k in employees - {id} :: (employees - {id})[k] == employees[k];
    exists k | k in employees :: employees[k].email == email && k != id
  }

  /** GET api/employees/{id}: the stored row, unchanged. */
  function GetById(t: Tables, id: int): (r: ActionResult<EmployeeItem>)
    ensures r.NotFound? <==> id !in t.employees
    ensures r.NotFound? ==> r.message == EmployeeNotFound
    ensures r.Ok? <==> id in t.employees
    ensures r.Ok? ==>
      && r.value.id == id
      && t.employees[id] == Employee(r.value.fullName, r.value.email, r.value.departmentId)
  {
    if id !in t.employees then NotFound(EmployeeNotFound)
    else
      var e := t.employees[id];
      Ok(EmployeeItem(id, e.fullName, e.email, e.departmentId))
  }

  /** POST api/employees: checks in the order name, email, department, uniqueness of the email. */
  method Create(db: AssetTrackerDbContext, request: CreateEmployeeRequest) returns (r: ActionResult<EmployeeItem>)
    requires db.Valid()
    modifies db
    ensures db.Valid()
    ensures IsNullOrWhiteSpace(Some(request.fullName)) ==> r == BadRequest(FullNameRequired) && unchanged(db)
    ensures !IsNullOrWhiteSpace(Some(request.fullName)) && IsNullOrWhiteSpace(Some(request.email)) ==>
      r == BadRequest(EmailRequired) && unchanged(db)
    ensures (!IsNullOrWhiteSpace(Some(request.fullName)) && !IsNullOrWhiteSpace(Some(request.email))
             && request.departmentId !in old(db.departments)) ==>
      r == BadRequest(DepartmentNotFound) && unchanged(db)
    ensures (!IsNullOrWhiteSpace(Some(request.fullName)) && !IsNullOrWhiteSpace(Some(request.email))
             && request.departmentId in old(db.departments) && EmailInUse(old(db.employees), request.email)) ==>
      r == Conflict(EmailNotUnique) && unchanged(db)
    ensures r.Threw? <==>
      && !IsNullOrWhiteSpace(Some(request.fullName)) && !IsNullOrWhiteSpace(Some(request.email))
      && request.departmentId in old(db.departments) && !EmailInUse(old(db.employees), request.email)
      && !FitsEmployee(Employee(request.fullName, request.email, request.departmentId))
    ensures r.Threw? ==> r.error == SaveRejected && unchanged(db)
    ensures r.Created? <==>
      && !IsNullOrWhiteSpace(Some(request.fullName)) && !IsNullOrWhiteSpace(Some(request.email))
      && request.departmentId in old(db.departments) && !EmailInUse(old(db.employees), request.email)
      && FitsEmployee(Employee(request.fullName, request.email, request.departmentId))
    ensures r.Created? ==>
      && r.value.id !in old(db.employees)
      && db.employees == old(db.employees)[r.value.id := Employee(request.fullName, request.email, request.departmentId)]
      && db.departments == old(db.departments) && db.assets == old(db.assets) && db.users == old(db.users)
      && r.value == EmployeeItem(r.value.id, request.fullName, request.email, request.departmentId)
      && GetById(db.Snapshot(), r.value.id) == Ok(r.value)
    ensures r.Created? ==> r.value.id == old(db.nextEmployeeId) && db.nextEmployeeId == old(db.nextEmployeeId) + 1
    ensures !r.Created? ==> db.nextEmployeeId == old(db.nextEmployeeId)
    ensures db.nextDepartmentId == old(db.nextDepartmentId)
  {
    if IsNullOrWhiteSpace(Some(request.fullName)) {
      return BadRequest(FullNameRequired);
    }
    if IsNullOrWhiteSpace(Some(request.email)) {
      return BadRequest(EmailRequired);
    }
    if request.departmentId !in db.departments {
      return BadRequest(DepartmentNotFound);
    }
    if EmailInUse(db.employees, request.email) {
      return Conflict(EmailNotUnique);
    }
    var employee := Employee(request.fullName, request.email, request.departmentId);
    var id := db.AddEmployee(employee);
    if id.None? {
      return Threw(SaveRejected);
    }
    r := Created(EmployeeItem(id.value, employee.fullName, employee.email, employee.departmentId));
  }

  /**
   * PUT api/employees/{id}: a blank name keeps the old one, a blank or unchanged
   * email keeps the old one, a missing or unchanged department keeps the old
   * one. A refused email or department saves nothing, not even a new name.
   */
  method Update(db: AssetTrackerDbContext, id: int, request: UpdateEmployeeRequest) returns (r: ActionResult<EmployeeItem>)
    requires db.Valid()
    modifies db
    ensures db.Valid()
    ensures id !in old(db.employees) ==> r == NotFound(EmployeeNotFound) && unchanged(db)
    ensures db.nextDepartmentId == old(db.nextDepartmentId) && db.nextEmployeeId == old(db.nextEmployeeId)
    ensures id in old(db.employees) ==>
      var current := old(db.employees[id]);
      var newEmail := !IsNullOrWhiteSpace(request.email) && request.email.value != current.email;
      var emailClash := newEmail && EmailInUseByOther(old(db.employees), id, request.email.value);
      var move := request.departmentId.Some? && request.departmentId.value != current.departmentId;
      var noDepartment := move && request.departmentId.value !in old(db.departments);
      var wanted := Employee(
        if !IsNullOrWhiteSpace(request.fullName) then request.fullName.value else current.fullName,
        if newEmail then request.email.value else current.email,
        if move then request.departmentId.value else current.departmentId);
      && (emailClash ==> r == Conflict(EmailNotUnique) && unchanged(db))
      && (!emailClash && noDepartment ==> r == BadRequest(DepartmentNotFound) && unchanged(db))
      && (r.Threw? <==> !emailClash && !noDepartment && !FitsEmployee(wanted))
      && (r.Threw? ==> r.error == SaveRejected && unchanged(db))
      && (r.Ok? <==> !emailClash && !noDepartment && FitsEmployee(wanted))
      && (r.Ok? ==>
        && db.employees == old(db.employees)[id := wanted]
        && db.departments == old(db.departments) && db.assets == old(db.assets) && db.users == old(db.users)
        && r.value == EmployeeItem(id, wanted.fullName, wanted.email, wanted.departmentId)
        && GetById(db.Snapshot(), id) == Ok(r.value))
  {
    if id !in db.employees {
      return NotFound(EmployeeNotFound);
    }
    var employee := db.employees[id];
    if !IsNullOrWhiteSpace(request.fullName) {
      employee := employee.(fullName := request.fullName.value);
    }
    if !IsNullOrWhiteSpace(request.email) && request.email.value != employee.email {
      if EmailInUseByOther(db.employees, id, request.email.value) {
        return Conflict(EmailNotUnique);
      }
      employee := employee.(email := request.email.value);
    }
    if request.departmentId.Some? && request.departmentId.value != employee.departmentId {
      if request.departmentId.value !in db.departments {
        return BadRequest(DepartmentNotFound);
      }
      employee := employee.(departmentId := request.departmentId.value);
    }
    var ok := db.UpdateEmployee(id, employee);
    if !ok {
      return Threw(SaveRejected);
    }
    r := Ok(EmployeeItem(id, employee.fullName, employee.email, employee.departmentId));
  }

  /** DELETE api/employees/{id}: the employee goes; the assets they owned stay, unassigned. */
  method Delete(db: AssetTrackerDbContext, id: int) returns (r: ActionResult<()>)
    requires db.Valid()
    modifies db
    ensures db.Valid()
    ensures id !in old(db.employees) ==> r == NotFound(EmployeeNotFound) && unchanged(db)
    ensures id in old(db.employees) ==> r == NoContent && db.Snapshot() == DeleteEmployees(old(db.Snapshot()), {id})
    ensures GetById(db.Snapshot(), id) == NotFound(EmployeeNotFound)
    ensures db.nextDepartmentId == old(db.nextDepartmentId) && db.nextEmployeeId == old(db.nextEmployeeId)
  {
    if id !in db.employees {
      return NotFound(EmployeeNotFound);
    }
    db.RemoveEmployee(id);
    r := NoContent;
  }
}
