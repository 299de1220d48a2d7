/**
 * `DepartmentsController`: list departments with their employees, list one
 * department's employees, create, update and delete a department. Each write
 * action checks, then saves through the context, in one step.
 */
module DepartmentsController {
  import opened Wrappers
  import opened Text
  import opened Ids
  import opened Entities
  import opened Store
  import opened Http

  datatype EmployeeItem = EmployeeItem(id: int, fullName: string, email: string)

  datatype DepartmentWithEmployees = DepartmentWithEmployees(
    id: int, deptName: string, location: Option<string>, employees: seq<EmployeeItem>)

  datatype CreateDepartmentRequest = CreateDepartmentRequest(deptName: string, location: Option<string>)

  datatype UpdateDepartmentRequest = UpdateDepartmentRequest(deptName: Option<string>, location: Option<string>)

  /** Some department is called `name`. */
  predicate DeptNameInUse(departments: map<int, Department>, name: string)
    ensures forall d: Department | d.deptName == name ::
      DepartmentAdmissible(departments, d) <==> FitsDepartment(d) && !DeptNameInUse(departments, name)
  {
    exists k | k in departments :: departments[k].deptName == name
  }

  /** Some department other than `id` is called `name`. */
  predicate DeptNameInUseByOther(departments: map<int, Department>, id: int, name: string)
    ensures DeptNameInUseByOther(departments, id, name) <==> DeptNameInUse(departments - {id}, name)
  {
    assert forall k | k in departments - {id} :: (departments - {id})[k] == departments[k];
    exists k | k in departments :: departments[k].deptName == name && k != id
  }

  function ItemOf(t: Tables, e: int): EmployeeItem
    requires e in t.employees
  {
    EmployeeItem(e, t.employees[e].fullName, t.employees[e].email)
  }

  function ItemsOf(t: Tables, ids: seq<int>): (r: seq<EmployeeItem>)
    requires forall k | k in ids :: k in t.employees
    ensures |r| == |ids|
    ensures forall i | 0 <= i < |ids| :: r[i].id == ids[i] && r[i] == ItemOf(t, ids[i])
  {
    if ids == [] then [] else [ItemOf(t, ids[0])] + ItemsOf(t, ids[1..])
  }

  /** The items of a set of employees listed in id order: each employee once, in ascending id order, with its stored name and email. */
  lemma ItemsOfSorted(t: Tables, s: set<int>)
    requires forall e | e in s :: e in t.employees
    ensures |ItemsOf(t, SortedIds(s))| == |s|
    ensures forall i | 0 <= i < |ItemsOf(t, SortedIds(s))| ::
      ItemsOf(t, SortedIds(s))[i].id in s && ItemsOf(t, SortedIds(s))[i] == ItemOf(t, ItemsOf(t, SortedIds(s))[i].id)
    ensures forall e | e in s :: exists i | 0 <= i < |ItemsOf(t, SortedIds(s))| :: ItemsOf(t, SortedIds(s))[i].id == e
    ensures forall i, j | 0 <= i < j < |ItemsOf(t, SortedIds(s))| :: ItemsOf(t, SortedIds(s))[i].id < ItemsOf(t, SortedIds(s))[j].id
  {
    var ids := SortedIds(s);
    var r := ItemsOf(t, ids);
    forall i | 0 <= i < |r| ensures r[i].id in s && r[i] == ItemOf(t, r[i].id) {
      assert r[i] == ItemOf(t, ids[i]) && ids[i] in ids;
    }
    forall i, j | 0 <= i < j < |r| ensures r[i].id < r[j].id {
      assert r[i].id == ids[i] && r[j].id == ids[j];
    }
    forall e | e in s ensures exists i | 0 <= i < |r| :: r[i].id == e {
      var i :| 0 <= i < |ids| && ids[i] == e;
      assert r[i].id == e;
    }
  }

  /** The items of department `id`'s employees: each employee of that department once, in id order, with its stored name and email. */
  function EmployeeItems(t: Tables, id: int): (r: seq<EmployeeItem>)
    ensures |r| == |Staff(t, id)|
    ensures forall i | 0 <= i < |r| :: r[i].id in Staff(t, id) && r[i] == ItemOf(t, r[i].id)
    ensures forall e | e in Staff(t, id) :: exists i | 0 <= i < |r| :: r[i].id == e
    ensures forall i, j | 0 <= i < j < |r| :: r[i].id < r[j].id
  {
    ItemsOfSorted(t, Staff(t, id));
    ItemsOf(t, SortedIds(Staff(t, id)))
  }

  function DepartmentOf(t: Tables, d: int): DepartmentWithEmployees
    requires d in t.departments
  {
    DepartmentWithEmployees(d, t.departments[d].deptName, t.departments[d].location, EmployeeItems(t, d))
  }

  function DepartmentsOf(t: Tables, ids: seq<int>): (r: seq<DepartmentWithEmployees>)
    requires forall k | k in ids :: k in t.departments
    ensures |r| == |ids|
    ensures forall i | 0 <= i < |ids| :: r[i].id == ids[i] && r[i] == DepartmentOf(t, ids[i])
  {
    if ids == [] then [] else [DepartmentOf(t, ids[0])] + DepartmentsOf(t, ids[1..])
  }

  /** GET api/departments (always 200). */
  function GetAll(t: Tables): (r: seq<DepartmentWithEmployees>)
    ensures |r| == |t.departments|
  {
    DepartmentsOf(t, SortedIds(t.departments.Keys))
  }

  /** The list holds every department once, in id order, with its stored fields and its employees. */
  lemma GetAllSpec(t: Tables)
    ensures forall i | 0 <= i < |GetAll(t)| :: GetAll(t)[i].id in t.departments && GetAll(t)[i] == DepartmentOf(t, GetAll(t)[i].id)
    ensures forall d | d in t.departments :: exists i | 0 <= i < |GetAll(t)| :: GetAll(t)[i].id == d
    ensures forall i, j | 0 <= i < j < |GetAll(t)| :: GetAll(t)[i].id < GetAll(t)[j].id
  {
    var ids := SortedIds(t.departments.Keys);
    var r := GetAll(t);
    forall i | 0 <= i < |r| ensures r[i].id in t.departments && r[i] == DepartmentOf(t, r[i].id) {
      assert ids[i] in ids;
    }
    forall d | d in t.departments ensures exists i | 0 <= i < |r| :: r[i].id == d {
      var i :| 0 <= i < |ids| && ids[i] == d;
      assert r[i].id == d;
    }
  }

  /** GET api/departments/{id}/employees. */
  function GetEmployees(t: Tables, id: int): (r: ActionResult<seq<EmployeeItem>>)
    ensures r.NotFound? <==> id !in t.departments
    ensures r.NotFound? ==> r.message == DepartmentNotFound
    ensures r.Ok? <==> id in t.departments
    ensures r.Ok? ==> r.value == EmployeeItems(t, id)
  {
    if id !in t.departments then NotFound(DepartmentNotFound) else Ok(EmployeeItems(t, id))
  }

  /** POST api/departments. */
  method Create(db: AssetTrackerDbContext, request: CreateDepartmentRequest) returns (r: ActionResult<DepartmentWithEmployees>)
    requires db.Valid()
    modifies db
    ensures db.Valid()
    ensures IsNullOrWhiteSpace(Some(request.deptName)) ==> r == BadRequest(DepartmentNameRequired) && unchanged(db)
    ensures !IsNullOrWhiteSpace(Some(request.deptName)) && DeptNameInUse(old(db.departments), request.deptName) ==>
      r == Conflict(DepartmentNameNotUnique) && unchanged(db)
    ensures r.Threw? <==>
      && !IsNullOrWhiteSpace(Some(request.deptName)) && !DeptNameInUse(old(db.departments), request.deptName)
      && !FitsDepartment(Department(request.deptName, request.location))
    ensures r.Threw? ==> r.error == SaveRejected && unchanged(db)
    ensures r.Created? <==>
      && !IsNullOrWhiteSpace(Some(request.deptName)) && !DeptNameInUse(old(db.departments), request.deptName)
      && FitsDepartment(Department(request.deptName, request.location))
    ensures r.Created? ==>
      && r.value.id !in old(db.departments)
      && db.departments == old(db.departments)[r.value.id := Department(request.deptName, request.location)]
      && db.employees == old(db.employees) && db.assets == old(db.assets) && db.users == old(db.users)
      && r.value == DepartmentWithEmployees(r.value.id, request.deptName, request.location, [])
      && Staff(db.Snapshot(), r.value.id) == {}
      && GetEmployees(db.Snapshot(), r.value.id) == Ok([])
    ensures r.Created? ==> r.value.id == old(db.nextDepartmentId) && db.nextDepartmentId == old(db.nextDepartmentId) + 1
    ensures !r.Created? ==> db.nextDepartmentId == old(db.nextDepartmentId)
    ensures db.nextEmployeeId == old(db.nextEmployeeId)
  {
    if IsNullOrWhiteSpace(Some(request.deptName)) {
      return BadRequest(DepartmentNameRequired);
    }
    if DeptNameInUse(db.departments, request.deptName) {
      return Conflict(DepartmentNameNotUnique);
    }
    var department := Department(request.deptName, request.location);
    var id := db.AddDepartment(department);
    if id.None? {
      return Threw(SaveRejected);
    }
    assert Staff(db.Snapshot(), id.value) == {} by {
      forall e | e in db.employees ensures db.employees[e].departmentId != id.value {
        assert db.employees[e].departmentId in old(db.departments);
      }
    }
    r := Created(DepartmentWithEmployees(id.value, department.deptName, department.location, []));
  }

  /** PUT api/departments/{id}: a blank or unchanged name keeps the old one; a null location keeps the old one. */
  method Update(db: AssetTrackerDbContext, id: int, request: UpdateDepartmentRequest) returns (r: ActionResult<DepartmentWithEmployees>)
    requires db.Valid()
    modifies db
    ensures db.Valid()
    ensures id !in old(db.departments) ==> r == NotFound(DepartmentNotFound) && unchanged(db)
    ensures db.nextDepartmentId == old(db.nextDepartmentId) && db.nextEmployeeId == old(db.nextEmployeeId)
    ensures id in old(db.departments) ==>
      var current := old(db.departments[id]);
      var rename := !IsNullOrWhiteSpace(request.deptName) && request.deptName.value != current.deptName;
      var clash := rename && DeptNameInUseByOther(old(db.departments), id, request.deptName.value);
      var wanted := Department(
        if rename then request.deptName.value else current.deptName,
        if request.location.Some? then request.location else current.location);
      && (clash ==> r == Conflict(DepartmentNameNotUnique) && unchanged(db))
      && (r.Threw? <==> !clash && !FitsDepartment(wanted))
      && (r.Threw? ==> r.error == SaveRejected && unchanged(db))
      && (r.Ok? <==> !clash && FitsDepartment(wanted))
      && (r.Ok? ==>
        && db.departments == old(db.departments)[id := wanted]
        && db.employees == old(db.employees) && db.assets == old(db.assets) && db.users == old(db.users)
        && r.value == DepartmentWithEmployees(id, wanted.deptName, wanted.location, EmployeeItems(db.Snapshot(), id)))
  {
    if id !in db.departments {
      return NotFound(DepartmentNotFound);
    }
    var department := db.departments[id];
    if !IsNullOrWhiteSpace(request.deptName) && request.deptName.value != department.deptName {
      if DeptNameInUseByOther(db.departments, id, request.deptName.value) {
        return Conflict(DepartmentNameNotUnique);
      }
      department := department.(deptName := request.deptName.value);
    }
    if request.location.Some? {
      department := department.(location := request.location);
    }
    var ok := db.UpdateDepartment(id, department);
    if !ok {
      return Threw(SaveRejected);
    }
    r := Ok(DepartmentWithEmployees(id, department.deptName, department.location, EmployeeItems(db.Snapshot(), id)));
  }

  /** DELETE api/departments/{id}: the department goes with its employees; their assets stay, unassigned. */
  method Delete(db: AssetTrackerDbContext, id: int) returns (r: ActionResult<()>)
    requires db.Valid()
    modifies db
    ensures db.Valid()
    ensures id !in old(db.departments) ==> r == NotFound(DepartmentNotFound) && unchanged(db)
    ensures id in old(db.departments) ==> r == NoContent && db.Snapshot() == DeleteDepartment(old(db.Snapshot()), id)
    ensures GetEmployees(db.Snapshot(), id) == NotFound(DepartmentNotFound)
    ensures db.nextDepartmentId == old(db.nextDepartmentId) && db.nextEmployeeId == old(db.nextEmployeeId)
  {
    if id !in db.departments {
      return NotFound(DepartmentNotFound);
    }
    db.RemoveDepartment(id);
    r := NoContent;
  }
}
