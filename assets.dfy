/**
 * `AssetsController`: the asset list, with each asset's owner and the owner's
 * department joined in, and the action that gives an asset to an employee or
 * takes it back.
 */
module AssetsController {
  import opened Wrappers
  import opened Text
  import opened Ids
  import opened Entities
  import opened Store
  import opened Http

  datatype DepartmentItem = DepartmentItem(id: int, deptName: string, location: Option<string>)

  datatype EmployeeItem = EmployeeItem(
    id: int, fullName: string, email: string, departmentId: int, department: Option<DepartmentItem>)

  /** `Id` is the asset's integer key written out in decimal (`int.ToString`). */
  datatype AssetListItem = AssetListItem(
    id: string, assetName: string, purchaseDate: DateTime, serialNumber: string, employee: Option<EmployeeItem>)

  datatype AssignAssetRequest = AssignAssetRequest(employeeId: Option<int>)

  /** The owner as the join finds it; the department part is null when the join finds no department. */
  function EmployeeItemOf(t: Tables, e: int): (r: EmployeeItem)
    requires e in t.employees
    ensures r.id == e && r.departmentId == t.employees[e].departmentId
    ensures Employee(r.fullName, r.email, r.departmentId) == t.employees[e]
    ensures r.department.Some? <==> r.departmentId in t.departments
    ensures r.department.Some? ==>
      r.department.value == DepartmentItem(r.departmentId, t.departments[r.departmentId].deptName, t.departments[r.departmentId].location)
  {
    var x := t.employees[e];
    var department :=
      if x.departmentId in t.departments
      then Some(DepartmentItem(x.departmentId, t.departments[x.departmentId].deptName, t.departments[x.departmentId].location))
      else None;
    EmployeeItem(e, x.fullName, x.email, x.departmentId, department)
  }

  /** One row of the list; the employee part is null when the asset has no owner the join can find. */
  function AssetItemOf(t: Tables, a: int): (r: AssetListItem)
    requires a in t.assets
    ensures r.id == Decimal(a)
    ensures r.assetName == t.assets[a].assetName && r.serialNumber == t.assets[a].serialNumber
    ensures r.purchaseDate == t.assets[a].purchaseDate
    ensures r.employee.Some? <==> t.assets[a].employeeId.Some? && t.assets[a].employeeId.value in t.employees
    ensures r.employee.Some? ==> r.employee.value == EmployeeItemOf(t, t.assets[a].employeeId.value)
  {
    var x := t.assets[a];
    var employee := if x.employeeId.Some? && x.employeeId.value in t.employees then Some(EmployeeItemOf(t, x.employeeId.value)) else None;
    AssetListItem(Decimal(a), x.assetName, x.purchaseDate, x.serialNumber, employee)
  }

  function AssetItemsOf(t: Tables, ids: seq<int>): (r: seq<AssetListItem>)
    requires forall k | k in ids :: k in t.assets
    ensures |r| == |ids|
    ensures forall i | 0 <= i < |ids| :: r[i] == AssetItemOf(t, ids[i])
  {
    if ids == [] then [] else [AssetItemOf(t, ids[0])] + AssetItemsOf(t, ids[1..])
  }

  /** GET api/assets (always 200). */
  function GetAll(t: Tables): (r: seq<AssetListItem>)
    ensures |r| == |t.assets|
  {
    AssetItemsOf(t, SortedIds(t.assets.Keys))
  }

  /** Every row of the list is some asset's row. */
  lemma GetAllSound(t: Tables)
    ensures forall i | 0 <= i < |GetAll(t)| :: exists a | a in t.assets :: GetAll(t)[i] == AssetItemOf(t, a)
  {
    var ids := SortedIds(t.assets.Keys);
    var r := GetAll(t);
    forall i | 0 <= i < |r| ensures exists a | a in t.assets :: r[i] == AssetItemOf(t, a) {
      assert ids[i] in ids && r[i] == AssetItemOf(t, ids[i]);
    }
  }

  /** Every asset has a row in the list. */
  lemma GetAllComplete(t: Tables)
    ensures forall a | a in t.assets :: exists i | 0 <= i < |GetAll(t)| :: GetAll(t)[i] == AssetItemOf(t, a)
  {
    var ids := SortedIds(t.assets.Keys);
    var r := GetAll(t);
    forall a | a in t.assets ensures exists i | 0 <= i < |r| :: r[i] == AssetItemOf(t, a) {
      var i :| 0 <= i < |ids| && ids[i] == a;
      assert r[i] == AssetItemOf(t, a);
    }
  }

  /** No two rows of the list carry the same id, so each asset appears exactly once. */
  lemma GetAllDistinct(t: Tables)
    ensures forall i, j | 0 <= i < j < |GetAll(t)| :: GetAll(t)[i].id != GetAll(t)[j].id
  {
    var ids := SortedIds(t.assets.Keys);
    var r := GetAll(t);
    forall i, j | 0 <= i < j < |r| ensures r[i].id != r[j].id {
      assert r[i].id == Decimal(ids[i]) && r[j].id == Decimal(ids[j]);
      if r[i].id == r[j].id {
        DecimalInjective(ids[i], ids[j]);
        assert false;
      }
    }
  }

  /**
   * In a consistent database the join never comes back empty-handed: an
   * asset shows an owner exactly when it has one, and an owner always shows
   * their department.
   */
  lemma AssetItemConsistent(t: Tables, a: int)
    requires Consistent(t) && a in t.assets
    ensures AssetItemOf(t, a).employee.None? <==> t.assets[a].employeeId.None?
    ensures AssetItemOf(t, a).employee.Some? ==>
      var owner := t.employees[t.assets[a].employeeId.value];
      && AssetItemOf(t, a).employee.value.id == t.assets[a].employeeId.value
      && AssetItemOf(t, a).employee.value.department ==
        Some(DepartmentItem(owner.departmentId, t.departments[owner.departmentId].deptName, t.departments[owner.departmentId].location))
  {
  }

  /**
   * PATCH api/assets/{id}: a null employee id takes the asset back, any other
   * must name an existing employee. Only the asset's owner changes, and a
   * write that passes the checks is always accepted by the database.
   */
  method AssignAsset(db: AssetTrackerDbContext, id: int, request: AssignAssetRequest) returns (r: ActionResult<()>)
    requires db.Valid()
    modifies db
    ensures db.Valid()
    ensures id !in old(db.assets) ==> r == NotFound(AssetNotFound) && unchanged(db)
    ensures db.nextDepartmentId == old(db.nextDepartmentId) && db.nextEmployeeId == old(db.nextEmployeeId)
    ensures (id in old(db.assets) && request.employeeId.Some? && request.employeeId.value !in old(db.employees)) ==>
      r == BadRequest(EmployeeNotFound) && unchanged(db)
    ensures r == NoContent <==>
      id in old(db.assets) && (request.employeeId.Some? ==> request.employeeId.value in old(db.employees))
    ensures !r.Threw?
    ensures r == NoContent ==>
      && db.assets == old(db.assets)[id := old(db.assets[id]).(employeeId := request.employeeId)]
      && db.departments == old(db.departments) && db.employees == old(db.employees) && db.users == old(db.users)
      && AssetItemOf(db.Snapshot(), id).employee ==
           if request.employeeId.Some? then Some(EmployeeItemOf(db.Snapshot(), request.employeeId.value)) else None
  {
    if id !in db.assets {
      return NotFound(AssetNotFound);
    }
    if request.employeeId.Some? && request.employeeId.value !in db.employees {
      return BadRequest(EmployeeNotFound);
    }
    var asset := db.assets[id].(employeeId := request.employeeId);
    assert AssetAdmissible(db.employees, db.assets - {id}, asset) by {
      assert FitsAsset(db.assets[id]);
      forall k | k in db.assets - {id} ensures db.assets[k].serialNumber != asset.serialNumber {
        assert k != id && k in db.Snapshot().assets && id in db.Snapshot().assets;
      }
    }
    var ok := db.UpdateAsset(id, asset);
    assert ok;
    r := NoContent;
  }
}
