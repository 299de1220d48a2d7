/**
 * The database behind `AssetTrackerDbContext`: four tables keyed by their
 * identity column, the constraints `OnModelCreating` puts on them (unique
 * indexes, required columns and their widths, foreign keys) and the two delete
 * rules (a department's employees are deleted with it; an employee's assets
 * lose their owner).
 *
 * The tables as a value are `Tables`; `Consistent` is the set of constraints
 * the database guarantees. The class `AssetTrackerDbContext` holds the tables
 * and performs the writes a `SaveChanges` sends: a write the constraints
 * reject changes nothing (the source then sees a `DbUpdateException`).
 */
module Store {
  import opened Wrappers
  import opened Entities
  import opened Ids

  datatype Tables = Tables(
    departments: map<int, Department>,
    employees: map<int, Employee>,
    assets: map<int, Asset>,
    users: map<int, User>)

  // ---------------------------------------------------------------------------
  // The constraints, one named predicate each

  ghost predicate UniqueDeptNames(t: Tables) {
    forall i, j | i in t.departments && j in t.departments && i != j ::
      t.departments[i].deptName != t.departments[j].deptName
  }

  ghost predicate UniqueEmails(t: Tables) {
    forall i, j | i in t.employees && j in t.employees && i != j ::
      t.employees[i].email != t.employees[j].email
  }

  ghost predicate UniqueSerialNumbers(t: Tables) {
    forall i, j | i in t.assets && j in t.assets && i != j ::
      t.assets[i].serialNumber != t.assets[j].serialNumber
  }

  ghost predicate UniqueUsernames(users: map<int, User>) {
    forall i, j | i in users && j in users && i != j :: users[i].username != users[j].username
  }

  /** Foreign key Employees.DepartmentId (required). */
  ghost predicate EmployeesHaveDepartment(t: Tables) {
    forall e | e in t.employees :: t.employees[e].departmentId in t.departments
  }

  /** Foreign key Assets.EmployeeId (nullable). */
  ghost predicate AssetOwnersExist(t: Tables) {
    forall a | a in t.assets :: t.assets[a].employeeId.Some? ==> t.assets[a].employeeId.value in t.employees
  }

  /** Every required column is present (a `string` is never null here) and within its width. */
  ghost predicate WithinBounds(t: Tables) {
    && (forall k | k in t.departments :: FitsDepartment(t.departments[k]))
    && (forall k | k in t.employees :: FitsEmployee(t.employees[k]))
    && (forall k | k in t.assets :: FitsAsset(t.assets[k]))
    && (forall k | k in t.users :: FitsUser(t.users[k]))
  }

  /** The join asset -> owner -> department lands: an assigned asset's owner exists and belongs to an existing department. */
  ghost predicate OwnerPlaced(t: Tables, a: int)
    requires a in t.assets
  {
    t.assets[a].employeeId.Some? ==>
      var owner := t.assets[a].employeeId.value;
      owner in t.employees && t.employees[owner].departmentId in t.departments
  }

  ghost predicate Consistent(t: Tables)
    ensures Consistent(t) ==> forall a | a in t.assets :: OwnerPlaced(t, a)
  {
    && UniqueDeptNames(t) && UniqueEmails(t) && UniqueSerialNumbers(t) && UniqueUsernames(t.users)
    && EmployeesHaveDepartment(t) && AssetOwnersExist(t)
    && WithinBounds(t)
  }

  // ---------------------------------------------------------------------------
  // What the database checks when one row is written next to `others`

  predicate DepartmentAdmissible(others: map<int, Department>, d: Department) {
    FitsDepartment(d) && forall k | k in others :: others[k].deptName != d.deptName
  }

  predicate EmployeeAdmissible(departments: map<int, Department>, others: map<int, Employee>, e: Employee) {
    && FitsEmployee(e)
    && e.departmentId in departments
    && forall k | k in others :: others[k].email != e.email
  }

  predicate AssetAdmissible(employees: map<int, Employee>, others: map<int, Asset>, a: Asset) {
    && FitsAsset(a)
    && (a.employeeId.Some? ==> a.employeeId.value in employees)
    && forall k | k in others :: others[k].serialNumber != a.serialNumber
  }

  /** Writing a department row keeps the database consistent exactly when the row is admissible. */
  lemma PutDepartmentExact(t: Tables, id: int, d: Department)
    requires Consistent(t)
    ensures Consistent(t.(departments := t.departments[id := d])) <==> DepartmentAdmissible(t.departments - {id}, d)
  {
    var t' := t.(departments := t.departments[id := d]);
    if Consistent(t') {
      forall k | k in t.departments - {id} ensures t.departments[k].deptName != d.deptName {
        assert k in t'.departments && id in t'.departments && k != id;
      }
    }
    if DepartmentAdmissible(t.departments - {id}, d) {
      forall i, j | i in t'.departments && j in t'.departments && i != j
        ensures t'.departments[i].deptName != t'.departments[j].deptName
      {
        if i == id { assert j in t.departments - {id}; }
        else if j == id { assert i in t.departments - {id}; }
      }
      assert WithinBounds(t');
    }
  }

  /** Writing an employee row keeps the database consistent exactly when the row is admissible. */
  lemma PutEmployeeExact(t: Tables, id: int, e: Employee)
    requires Consistent(t)
    ensures Consistent(t.(employees := t.employees[id := e])) <==> EmployeeAdmissible(t.departments, t.employees - {id}, e)
  {
    var t' := t.(employees := t.employees[id := e]);
    if Consistent(t') {
      forall k | k in t.employees - {id} ensures t.employees[k].email != e.email {
        assert k in t'.employees && id in t'.employees && k != id;
      }
    }
    if EmployeeAdmissible(t.departments, t.employees - {id}, e) {
      forall i, j | i in t'.employees && j in t'.employees && i != j
        ensures t'.employees[i].email != t'.employees[j].email
      {
        if i == id { assert j in t.employees - {id}; }
        else if j == id { assert i in t.employees - {id}; }
      }
      assert WithinBounds(t');
    }
  }

  /** Writing an asset row keeps the database consistent exactly when the row is admissible. */
  lemma PutAssetExact(t: Tables, id: int, a: Asset)
    requires Consistent(t)
    ensures Consistent(t.(assets := t.assets[id := a])) <==> AssetAdmissible(t.employees, t.assets - {id}, a)
  {
    var t' := t.(assets := t.assets[id := a]);
    if Consistent(t') {
      forall k | k in t.assets - {id} ensures t.assets[k].serialNumber != a.serialNumber {
        assert k in t'.assets && id in t'.assets && k != id;
      }
    }
    if AssetAdmissible(t.employees, t.assets - {id}, a) {
      forall i, j | i in t'.assets && j in t'.assets && i != j
        ensures t'.assets[i].serialNumber != t'.assets[j].serialNumber
      {
        if i == id { assert j in t.assets - {id}; }
        else if j == id { assert i in t.assets - {id}; }
      }
      assert WithinBounds(t');
    }
  }

  // ---------------------------------------------------------------------------
  // The delete rules

  /** ON DELETE SET NULL for one asset, when its owner is among `gone`. */
  function Release(a: Asset, gone: set<int>): Asset {
    if a.employeeId.Some? && a.employeeId.value in gone then a.(employeeId := None) else a
  }

  function ClearOwners(assets: map<int, Asset>, gone: set<int>): map<int, Asset> {
    map k | k in assets :: Release(assets[k], gone)
  }

  /** Employees `gone` are deleted; the assets they owned stay, unassigned. */
  function DeleteEmployees(t: Tables, gone: set<int>): (r: Tables)
    ensures r.employees.Keys == t.employees.Keys - gone
    ensures r.assets.Keys == t.assets.Keys
    ensures forall a | a in t.assets :: r.assets[a].employeeId.None? <==>
      t.assets[a].employeeId.None? || t.assets[a].employeeId.value in gone
    ensures r.departments == t.departments && r.users == t.users
  {
    t.(employees := t.employees - gone, assets := ClearOwners(t.assets, gone))
  }

  /** The employees whose DepartmentId is `id`. */
  function Staff(t: Tables, id: int): set<int> {
    set e | e in t.employees && t.employees[e].departmentId == id
  }

  /** ON DELETE CASCADE: the department goes, and with it its staff (whose assets lose their owner). */
  function DeleteDepartment(t: Tables, id: int): (r: Tables)
    ensures r.departments.Keys == t.departments.Keys - {id}
    ensures forall e :: e in r.employees <==> e in t.employees && t.employees[e].departmentId != id
    ensures r.assets.Keys == t.assets.Keys && r.users == t.users
  {
    DeleteEmployees(t, Staff(t, id)).(departments := t.departments - {id})
  }

  lemma DeleteEmployeesKeeps(t: Tables, gone: set<int>)
    requires Consistent(t)
    ensures Consistent(DeleteEmployees(t, gone))
  {
    var t' := DeleteEmployees(t, gone);
    assert t'.departments == t.departments && t'.users == t.users;
    assert UniqueEmails(t') by {
      forall i, j | i in t'.employees && j in t'.employees && i != j
        ensures t'.employees[i].email != t'.employees[j].email
      {
        assert t'.employees[i] == t.employees[i] && t'.employees[j] == t.employees[j];
      }
    }
    assert EmployeesHaveDepartment(t') by {
      forall e | e in t'.employees ensures t'.employees[e].departmentId in t'.departments {
        assert t'.employees[e] == t.employees[e];
      }
    }
    assert UniqueSerialNumbers(t') by {
      forall i, j | i in t'.assets && j in t'.assets && i != j
        ensures t'.assets[i].serialNumber != t'.assets[j].serialNumber
      {
        assert t'.assets[i].serialNumber == t.assets[i].serialNumber;
        assert t'.assets[j].serialNumber == t.assets[j].serialNumber;
      }
    }
    assert AssetOwnersExist(t') by {
      forall a | a in t'.assets && t'.assets[a].employeeId.Some?
        ensures t'.assets[a].employeeId.value in t'.employees
      {
        assert t'.assets[a] == Release(t.assets[a], gone);
      }
    }
    assert WithinBounds(t') by {
      forall k | k in t'.employees ensures FitsEmployee(t'.employees[k]) {
        assert t'.employees[k] == t.employees[k];
      }
      forall k | k in t'.assets ensures FitsAsset(t'.assets[k]) {
        assert FitsAsset(t.assets[k]);
      }
    }
  }

  lemma DeleteDepartmentKeeps(t: Tables, id: int)
    requires Consistent(t)
    ensures Consistent(DeleteDepartment(t, id))
  {
    DeleteEmployeesKeeps(t, Staff(t, id));
  }

  /** Under a department delete every asset survives, and only the owner of an asset held by that department's staff changes, to none. */
  lemma DeleteDepartmentEffect(t: Tables, id: int)
    ensures forall a | a in t.assets ::
      var before, after := t.assets[a], DeleteDepartment(t, id).assets[a];
      && after == before.(employeeId := after.employeeId)
      && (after.employeeId.None? <==> before.employeeId.None? || before.employeeId.value in Staff(t, id))
  {
  }

  /** Under an employee delete every asset survives; only the owner of the assets that employee held is cleared. */
  lemma DeleteEmployeeEffect(t: Tables, id: int)
    ensures forall a | a in t.assets ::
      DeleteEmployees(t, {id}).assets[a] ==
        if t.assets[a].employeeId == Some(id) then t.assets[a].(employeeId := None) else t.assets[a]
  {
  }

  /** Deleting employees one group after another is deleting them all at once. */
  lemma {:induction false} DeleteEmployeesCompose(t: Tables, g1: set<int>, g2: set<int>)
    ensures DeleteEmployees(DeleteEmployees(t, g1), g2) == DeleteEmployees(t, g1 + g2)
  {
    var l, r := DeleteEmployees(DeleteEmployees(t, g1), g2), DeleteEmployees(t, g1 + g2);
    assert l.employees == r.employees;
    forall k | k in t.assets ensures l.assets[k] == r.assets[k] {
      assert DeleteEmployees(t, g1).assets[k] == Release(t.assets[k], g1);
    }
    assert l.assets == r.assets;
  }

  /** Deleting no employee changes nothing: where a cascade starts. */
  lemma DeleteNoEmployees(t: Tables)
    ensures DeleteEmployees(t, {}) == t
  {
    forall k | k in t.assets ensures ClearOwners(t.assets, {})[k] == t.assets[k] { }
    assert t.employees - {} == t.employees;
  }

  /** One step of a cascade: deleting `e` after the staff already done leaves `e` done as well. */
  lemma CascadeStep(t: Tables, staff: set<int>, todo: set<int>, e: int)
    requires todo <= staff && e in todo
    ensures DeleteEmployees(DeleteEmployees(t, staff - todo), {e}) == DeleteEmployees(t, staff - (todo - {e}))
  {
    DeleteEmployeesCompose(t, staff - todo, {e});
    assert (staff - todo) + {e} == staff - (todo - {e});
  }

  /** A value above every id in `s`: the next identity value. */
  function NextId(s: set<int>): (n: int)
    ensures n >= 1 && forall k | k in s :: k < n
  {
    var ids := SortedIds(s);
    if ids == [] then 1
    else
      var top := ids[|ids| - 1];
      assert forall k | k in s :: k <= top by {
        forall k | k in s ensures k <= top {
          var i :| 0 <= i < |ids| && ids[i] == k;
          assert i == |ids| - 1 || ids[i] < top;
        }
      }
      if top < 1 then 1 else top + 1
  }

  // ---------------------------------------------------------------------------
  // The context: the tables, updated in place

  class AssetTrackerDbContext {
    var departments: map<int, Department>
    var employees: map<int, Employee>
    var assets: map<int, Asset>
    var users: map<int, User>
    // the identity columns' next values
    var nextDepartmentId: int
    var nextEmployeeId: int

    function Snapshot(): Tables
      reads this
    {
      Tables(departments, employees, assets, users)
    }

    ghost predicate Valid()
      reads this
    {
      && Consistent(Snapshot())
      && (forall k | k in departments :: k < nextDepartmentId)
      && (forall k | k in employees :: k < nextEmployeeId)
    }

    /** A context over tables the database already holds. */
    constructor (t: Tables)
      requires Consistent(t)
      ensures Valid() && Snapshot() == t
    {
      departments, employees, assets, users := t.departments, t.employees, t.assets, t.users;
      nextDepartmentId := NextId(t.departments.Keys);
      nextEmployeeId := NextId(t.employees.Keys);
      new;
      assert Tables(departments, employees, assets, users) == t;
    }

    /** `Departments.Add` followed by `SaveChanges`: the new row gets a fresh id, or nothing changes. */
    method AddDepartment(d: Department) returns (id: Option<int>)
      requires Valid()
      modifies this
      ensures Valid()
      ensures id.Some? <==> DepartmentAdmissible(old(departments), d)
      ensures id.Some? ==> id.value !in old(departments) && departments == old(departments)[id.value := d]
      ensures id.Some? ==> employees == old(employees) && assets == old(assets) && users == old(users)
      ensures id.Some? ==> id.value == old(nextDepartmentId) && nextDepartmentId == id.value + 1
      ensures nextEmployeeId == old(nextEmployeeId)
      ensures id.None? ==> unchanged(this)
    {
      if DepartmentAdmissible(departments, d) {
        var k := nextDepartmentId;
        assert departments - {k} == departments;
        PutDepartmentExact(Snapshot(), k, d);
        departments := departments[k := d];
        nextDepartmentId := k + 1;
        id := Some(k);
      } else {
        id := None;
      }
    }

    /** Saving a changed department row. */
    method UpdateDepartment(id: int, d: Department) returns (ok: bool)
      requires Valid() && id in departments
      modifies this
      ensures Valid()
      ensures ok <==> DepartmentAdmissible(old(departments) - {id}, d)
      ensures ok ==> departments == old(departments)[id := d]
      ensures ok ==> employees == old(employees) && assets == old(assets) && users == old(users)
      ensures nextDepartmentId == old(nextDepartmentId) && nextEmployeeId == old(nextEmployeeId)
      ensures !ok ==> unchanged(this)
    {
      ok := DepartmentAdmissible(departments - {id}, d);
      if ok {
        PutDepartmentExact(Snapshot(), id, d);
        departments := departments[id := d];
      }
    }

    /** `Employees.Add` followed by `SaveChanges`. */
    method AddEmployee(e: Employee) returns (id: Option<int>)
      requires Valid()
      modifies this
      ensures Valid()
      ensures id.Some? <==> EmployeeAdmissible(old(departments), old(employees), e)
      ensures id.Some? ==> id.value !in old(employees) && employees == old(employees)[id.value := e]
      ensures id.Some? ==> departments == old(departments) && assets == old(assets) && users == old(users)
      ensures id.Some? ==> id.value == old(nextEmployeeId) && nextEmployeeId == id.value + 1
      ensures nextDepartmentId == old(nextDepartmentId)
      ensures id.None? ==> unchanged(this)
    {
      if EmployeeAdmissible(departments, employees, e) {
        var k := nextEmployeeId;
        assert employees - {k} == employees;
        PutEmployeeExact(Snapshot(), k, e);
        employees := employees[k := e];
        nextEmployeeId := k + 1;
        id := Some(k);
      } else {
        id := None;
      }
    }

    /** Saving a changed employee row. */
    method UpdateEmployee(id: int, e: Employee) returns (ok: bool)
      requires Valid() && id in employees
      modifies this
      ensures Valid()
      ensures ok <==> EmployeeAdmissible(old(departments), old(employees) - {id}, e)
      ensures ok ==> employees == old(employees)[id := e]
      ensures ok ==> departments == old(departments) && assets == old(assets) && users == old(users)
      ensures nextDepartmentId == old(nextDepartmentId) && nextEmployeeId == old(nextEmployeeId)
      ensures !ok ==> unchanged(this)
    {
      ok := EmployeeAdmissible(departments, employees - {id}, e);
      if ok {
        PutEmployeeExact(Snapshot(), id, e);
        employees := employees[id := e];
      }
    }

    /** Saving a changed asset row. */
    method UpdateAsset(id: int, a: Asset) returns (ok: bool)
      requires Valid() && id in assets
      modifies this
      ensures Valid()
      ensures ok <==> AssetAdmissible(old(employees), old(assets) - {id}, a)
      ensures ok ==> assets == old(assets)[id := a]
      ensures ok ==> departments == old(departments) && employees == old(employees) && users == old(users)
      ensures nextDepartmentId == old(nextDepartmentId) && nextEmployeeId == old(nextEmployeeId)
      ensures !ok ==> unchanged(this)
    {
      ok := AssetAdmissible(employees, assets - {id}, a);
      if ok {
        PutAssetExact(Snapshot(), id, a);
        assets := assets[id := a];
      }
    }

    /** ON DELETE SET NULL, one asset at a time: every asset owned by `id` loses its owner; nothing else changes. */
    method ReleaseAssets(id: int)
      modifies this
      ensures assets == ClearOwners(old(assets), {id})
      ensures departments == old(departments) && employees == old(employees) && users == old(users)
      ensures nextDepartmentId == old(nextDepartmentId) && nextEmployeeId == old(nextEmployeeId)
    {
      ghost var before := assets;
      var todo := assets.Keys;
      while todo != {}
        invariant todo <= before.Keys && assets.Keys == before.Keys
        invariant forall k | k in assets :: assets[k] == if k in todo then before[k] else Release(before[k], {id})
        invariant departments == old(departments) && employees == old(employees) && users == old(users)
        invariant nextDepartmentId == old(nextDepartmentId) && nextEmployeeId == old(nextEmployeeId)
        decreases todo
      {
        HasElement(todo);
        var k :| k in todo;
        if assets[k].employeeId == Some(id) {
          assets := assets[k := assets[k].(employeeId := None)];
        }
        todo := todo - {k};
      }
      forall k | k in before ensures assets[k] == ClearOwners(before, {id})[k] { }
    }

    /** `Employees.Remove` followed by `SaveChanges`: the assets it owned are released, then the row goes. */
    method RemoveEmployee(id: int)
      requires Valid() && id in employees
      modifies this
      ensures Valid()
      ensures Snapshot() == DeleteEmployees(old(Snapshot()), {id})
      ensures nextDepartmentId == old(nextDepartmentId) && nextEmployeeId == old(nextEmployeeId)
    {
      ReleaseAssets(id);
      employees := employees - {id};
      assert Snapshot() == DeleteEmployees(old(Snapshot()), {id});
      DeleteEmployeesKeeps(old(Snapshot()), {id});
    }

    /** `Departments.Remove` followed by `SaveChanges`: the cascade removes the department's staff one by one. */
    method RemoveDepartment(id: int)
      requires Valid() && id in departments
      modifies this
      ensures Valid()
      ensures Snapshot() == DeleteDepartment(old(Snapshot()), id)
      ensures nextDepartmentId == old(nextDepartmentId) && nextEmployeeId == old(nextEmployeeId)
    {
      ghost var t0 := Snapshot();
      var staff := set e | e in employees && employees[e].departmentId == id;
      assert staff == Staff(t0, id);
      var todo := staff;
      assert staff - todo == {};
      DeleteNoEmployees(t0);
      while todo != {}
        invariant todo <= staff
        invariant Valid()
        invariant Snapshot() == DeleteEmployees(t0, staff - todo)
        invariant nextDepartmentId == old(nextDepartmentId) && nextEmployeeId == old(nextEmployeeId)
        decreases todo
      {
        HasElement(todo);
        var e :| e in todo;
        RemoveEmployee(e);
        CascadeStep(t0, staff, todo, e);
        todo := todo - {e};
      }
      DeleteDepartmentKeeps(t0, id);
      assert staff - todo == Staff(t0, id);
      departments := departments - {id};
    }
  }
}
