/**
 * The employee handlers (controllers/EmployeeController.cs). Reads are functions
 * of the store; create, update and delete are methods that change it.
 */
module EmployeeController {
  import opened Wrappers
  import opened Models
  import opened Text
  import opened Lists
  import opened DataService

  /** GET employee/all: every stored employee, in store order. */
  function GetAllEmployees(data: InMemoryData): (r: Response<seq<Employee>>)
    reads data
    ensures r.Ok? && |r.value| == |data.employees|
    ensures forall i :: 0 <= i < |r.value| ==> r.value[i] == data.employees[i]
  {
    Ok(data.employees)
  }

  /**
   * POST employee/create. A missing body or blank name, then an unknown manager,
   * is rejected with the store untouched; otherwise the body, with a fresh id and
   * the current time, is appended and returned.
   */
  method CreateEmployee(data: InMemoryData, employee: Option<Employee>, newId: Id, now: Timestamp)
    returns (r: Response<EmployeeMessage>)
    requires data.Valid()
    requires data.IsFreshEmployeeId(newId)
    modifies data
    ensures data.Valid()
    ensures data.managers == old(data.managers)
    ensures
      if employee.None? || IsNullOrWhiteSpace(employee.value.fullName) then
        r == BadRequest("Employee details are required.") && data.employees == old(data.employees)
      else if !ManagerExists(old(data.managers), employee.value.managerId) then
        r == BadRequest("Manager not found.") && data.employees == old(data.employees)
      else
        r == Ok(EmployeeMessage("Employee created successfully!", employee.value.(id := newId, createdDate := now)))
        && data.employees == old(data.employees) + [r.value.employee]
  {
    if employee.None? || IsNullOrWhiteSpace(employee.value.fullName) {
      return BadRequest("Employee details are required.");
    }
    var e := employee.value;
    var manager := FirstIndex(data.managers, ManagerHasId(e.managerId));
    if manager.None? {
      return BadRequest("Manager not found.");
    }
    var created := e.(id := newId, createdDate := now);
    AppendKeepsDistinct(data.employees, EmployeeKey, created);
    data.employees := data.employees + [created];
    r := Ok(EmployeeMessage("Employee created successfully!", created));
  }

  /** A successful create keeps every employee pointing at a stored manager. */
  lemma CreateKeepsManagersResolved(managers: seq<Manager>, employees: seq<Employee>, e: Employee)
    requires ManagersResolve(managers, employees)
    requires ManagerExists(managers, e.managerId)
    ensures ManagersResolve(managers, employees + [e])
  {
    var es := employees + [e];
    forall i | 0 <= i < |es| ensures ManagerExists(managers, es[i].managerId) {
      if i < |employees| {
        assert es[i] == employees[i];
      }
    }
  }

  /** GET employee/manager/{managerId}: the employees reporting to `managerId`, in store order. */
  function GetEmployeesByManager(data: InMemoryData, managerId: Id): (r: Response<seq<Employee>>)
    reads data
    ensures r.Ok? || r.NotFound?
    ensures r.NotFound? <==> forall i :: 0 <= i < |data.employees| ==> data.employees[i].managerId != managerId
    ensures r.NotFound? ==> r.message == "No employees found for this manager."
    ensures r.Ok? ==> r.value == Where(data.employees, ManagedBy(managerId))
    ensures r.Ok? ==> forall i :: 0 <= i < |r.value| ==> r.value[i].managerId == managerId
    ensures r.Ok? ==> forall i :: 0 <= i < |data.employees| && data.employees[i].managerId == managerId ==>
                        data.employees[i] in r.value
  {
    var employees := Where(data.employees, ManagedBy(managerId));
    if employees == [] then
      assert forall i :: 0 <= i < |data.employees| ==> !ManagedBy(managerId)(data.employees[i]);
      NotFound("No employees found for this manager.")
    else
      Ok(employees)
  }

  /** The fields an update overwrites come from the patch; id, password and creation date are kept. */
  function Patched(e: Employee, patch: Employee): (r: Employee)
    ensures r.id == e.id && r.password == e.password && r.createdDate == e.createdDate
    ensures r.email == patch.email && r.fullName == patch.fullName && r.managerId == patch.managerId
  {
    e.(email := patch.email, fullName := patch.fullName, managerId := patch.managerId)
  }

  /**
   * PUT employee/update/{id}: the first employee with that id gets the patch's
   * email, name and manager id, in place. The new manager id is not checked.
   */
  method UpdateEmployee(data: InMemoryData, id: Id, updatedEmployee: Employee)
    returns (r: Response<EmployeeMessage>)
    requires data.Valid()
    modifies data
    ensures data.Valid()
    ensures data.managers == old(data.managers)
    ensures match FirstIndex(old(data.employees), EmployeeHasId(id))
      case None =>
        r == NotFound("Employee not found.") && data.employees == old(data.employees)
      case Some(i) =>
        && data.employees == old(data.employees)[i := Patched(old(data.employees)[i], updatedEmployee)]
        && r == Ok(EmployeeMessage("Employee updated successfully!", data.employees[i]))
  {
    var found := FirstIndex(data.employees, EmployeeHasId(id));
    if found.None? {
      return NotFound("Employee not found.");
    }
    var i := found.value;
    var employee := Patched(data.employees[i], updatedEmployee);
    UpdateKeepsDistinct(data.employees, EmployeeKey, i, employee);
    data.employees := data.employees[i := employee];
    r := Ok(EmployeeMessage("Employee updated successfully!", employee));
  }

  /** With unique ids, the updated record is the one that had the id, and it still has it. */
  lemma UpdateTargetsTheId(employees: seq<Employee>, i: nat, patch: Employee)
    requires Distinct(employees, EmployeeKey) && i < |employees|
    ensures FirstIndex(employees, EmployeeHasId(employees[i].id)) == Some(i)
    ensures FirstIndex(employees[i := Patched(employees[i], patch)], EmployeeHasId(employees[i].id)) == Some(i)
  {
    FirstIndexOfDistinct(employees, EmployeeKey, EmployeeHasId(employees[i].id), i);
    var updated := employees[i := Patched(employees[i], patch)];
    UpdateKeepsDistinct(employees, EmployeeKey, i, Patched(employees[i], patch));
    FirstIndexOfDistinct(updated, EmployeeKey, EmployeeHasId(employees[i].id), i);
  }

  /**
   * Update does not re-check the manager: patching in an unknown manager id
   * breaks the foreign-key condition that create enforces.
   */
  lemma UpdateMayLeaveDanglingManager(managers: seq<Manager>, employees: seq<Employee>, i: nat, patch: Employee)
    requires i < |employees|
    requires !ManagerExists(managers, patch.managerId)
    ensures !ManagersResolve(managers, employees[i := Patched(employees[i], patch)])
  {
    var updated := employees[i := Patched(employees[i], patch)];
    assert updated[i].managerId == patch.managerId;
  }

  /**
   * DELETE employee/delete/{id}: the first employee with that id is removed and
   * returned; the others keep their order.
   */
  method DeleteEmployee(data: InMemoryData, id: Id) returns (r: Response<EmployeeMessage>)
    requires data.Valid()
    modifies data
    ensures data.Valid()
    ensures data.managers == old(data.managers)
    ensures match FirstIndex(old(data.employees), EmployeeHasId(id))
      case None =>
        r == NotFound("Employee not found.") && data.employees == old(data.employees)
      case Some(i) =>
        && data.employees == RemoveAt(old(data.employees), i)
        && r == Ok(EmployeeMessage("Employee deleted successfully!", old(data.employees)[i]))
  {
    var found := FirstIndex(data.employees, EmployeeHasId(id));
    if found.None? {
      return NotFound("Employee not found.");
    }
    var i := found.value;
    var employee := data.employees[i];
    RemoveAtDistinct(data.employees, EmployeeKey, i);
    data.employees := RemoveAt(data.employees, i);
    r := Ok(EmployeeMessage("Employee deleted successfully!", employee));
  }

  /** With unique ids, a deleted id is gone: deleting it again finds nothing. */
  lemma DeleteTwiceFindsNothing(employees: seq<Employee>, id: Id, i: nat)
    requires Distinct(employees, EmployeeKey)
    requires FirstIndex(employees, EmployeeHasId(id)) == Some(i)
    ensures FirstIndex(RemoveAt(employees, i), EmployeeHasId(id)) == None
  {
    RemoveAtDistinct(employees, EmployeeKey, i);
  }

  /** Deleting an employee keeps every remaining employee pointing at a stored manager. */
  lemma DeleteKeepsManagersResolved(managers: seq<Manager>, employees: seq<Employee>, i: nat)
    requires ManagersResolve(managers, employees) && i < |employees|
    ensures ManagersResolve(managers, RemoveAt(employees, i))
  {
    var rest := RemoveAt(employees, i);
    forall j | 0 <= j < |rest| ensures ManagerExists(managers, rest[j].managerId) {
      assert rest[j] == employees[if j < i then j else j + 1];
    }
  }

  /** The search filter `e => e.FullName.Contains(name, StringComparison.OrdinalIgnoreCase)`. */
  function NameMatches(name: string): Employee -> bool
  {
    (e: Employee) => ContainsIgnoreCase(e.fullName, name)
  }

  /**
   * GET employee/search?name=: a blank query is rejected; otherwise the employees
   * whose full name contains the query, ignoring case, in store order.
   */
  function SearchEmployeesByName(data: InMemoryData, name: string): (r: Response<seq<Employee>>)
    reads data
    ensures r.Ok? || r.BadRequest? || r.NotFound?
    ensures r.BadRequest? <==> IsNullOrWhiteSpace(name)
    ensures r.BadRequest? ==> r.message == "Name parameter is required."
    ensures r.NotFound? <==>
      && !IsNullOrWhiteSpace(name)
      && forall i :: 0 <= i < |data.employees| ==> !ContainsIgnoreCase(data.employees[i].fullName, name)
    ensures r.NotFound? ==> r.message == "No employees found matching the search criteria."
    ensures r.Ok? ==> r.value == Where(data.employees, NameMatches(name))
    ensures r.Ok? ==> forall i :: 0 <= i < |r.value| ==> ContainsIgnoreCase(r.value[i].fullName, name)
    ensures r.Ok? ==> forall i :: 0 <= i < |data.employees| && ContainsIgnoreCase(data.employees[i].fullName, name) ==>
                        data.employees[i] in r.value
  {
    if IsNullOrWhiteSpace(name) then
      BadRequest("Name parameter is required.")
    else
      var matching := Where(data.employees, NameMatches(name));
      if matching == [] then
        assert forall i :: 0 <= i < |data.employees| ==> !NameMatches(name)(data.employees[i]);
        NotFound("No employees found matching the search criteria.")
      else
        assert forall i :: 0 <= i < |matching| ==> NameMatches(name)(matching[i]);
        Ok(matching)
  }

  /** The query's case does not matter: queries equal up to case give the same response. */
  lemma SearchIgnoresQueryCase(data: InMemoryData, name: string, other: string)
    requires Fold(name) == Fold(other)
    ensures SearchEmployeesByName(data, name) == SearchEmployeesByName(data, other)
  {
    BlankIgnoresCase(name, other);
    WhereSamePredicate(data.employees, NameMatches(name), NameMatches(other));
  }

  /**
   * Typing more of a name narrows the search: every employee found for a longer
   * query is also found for any query it contains.
   */
  lemma SearchNarrows(employees: seq<Employee>, longer: string, shorter: string)
    requires ContainsIgnoreCase(longer, shorter)
    ensures forall i :: 0 <= i < |Where(employees, NameMatches(longer))| ==>
              Where(employees, NameMatches(longer))[i] in Where(employees, NameMatches(shorter))
  {
    var found := Where(employees, NameMatches(longer));
    forall i | 0 <= i < |found| ensures found[i] in Where(employees, NameMatches(shorter)) {
      assert NameMatches(longer)(found[i]);
      ContainsIgnoreCaseNarrows(found[i].fullName, longer, shorter);
      assert NameMatches(shorter)(found[i]);
    }
  }

  /**
   * The same narrowing for the search response: once a longer query finds
   * employees, a non-blank query it contains finds them too. A blank one is
   * rejected before any filtering.
   */
  lemma SearchResultNarrows(data: InMemoryData, longer: string, shorter: string)
    requires ContainsIgnoreCase(longer, shorter)
    requires !IsNullOrWhiteSpace(shorter)
    requires SearchEmployeesByName(data, longer).Ok?
    ensures SearchEmployeesByName(data, shorter).Ok?
    ensures forall i :: 0 <= i < |SearchEmployeesByName(data, longer).value| ==>
              SearchEmployeesByName(data, longer).value[i] in SearchEmployeesByName(data, shorter).value
  {
    var found := SearchEmployeesByName(data, longer).value;
    SearchNarrows(data.employees, longer, shorter);
    assert found[0] in Where(data.employees, NameMatches(shorter));
  }

  /** On the seeded store, manager 1's employees are exactly employees 1 and 2, in that order. */
  lemma SeedEmployeesOfManager1(data: InMemoryData, m1: Id, m2: Id, e1: Id, e2: Id, e3: Id, now: Timestamp)
    requires m1 != m2
    requires data.employees == [SeedEmployee1(e1, m1, now), SeedEmployee2(e2, m1, now), SeedEmployee3(e3, m2, now)]
    ensures GetEmployeesByManager(data, m1) == Ok([SeedEmployee1(e1, m1, now), SeedEmployee2(e2, m1, now)])
  {
    var es := data.employees;
    assert es == [es[0], es[1]] + [es[2]];
    WhereConcat([es[0], es[1]], [es[2]], ManagedBy(m1));
    WhereAll([es[0], es[1]], ManagedBy(m1));
  }

  /** A full name starting with "Employee" matches the query "employee". */
  lemma MatchesEmployee(fullName: string)
    requires |fullName| >= 8 && fullName[..8] == "Employee"
    ensures ContainsIgnoreCase(fullName, "employee")
  {
    assert Fold("Employee") == Fold("employee");
    ContainsIgnoreCasePrefix(fullName, "employee");
  }

  /** Searching the seeded store for "employee" finds all three employees, in store order. */
  lemma SeedSearchEmployee(data: InMemoryData, m1: Id, m2: Id, e1: Id, e2: Id, e3: Id, now: Timestamp)
    requires data.employees == [SeedEmployee1(e1, m1, now), SeedEmployee2(e2, m1, now), SeedEmployee3(e3, m2, now)]
    ensures SearchEmployeesByName(data, "employee") == Ok(data.employees)
  {
    var es := data.employees;
    MatchesEmployee(es[0].fullName);
    MatchesEmployee(es[1].fullName);
    MatchesEmployee(es[2].fullName);
    assert NameMatches("employee")(es[0]) && NameMatches("employee")(es[1]) && NameMatches("employee")(es[2]);
    WhereAll(es, NameMatches("employee"));
    assert !IsWhiteSpace("employee"[0]);
    assert !IsNullOrWhiteSpace("employee");
  }

  /** Searching the seeded store for "zzz" finds nothing. */
  lemma SeedSearchZzz(data: InMemoryData, m1: Id, m2: Id, e1: Id, e2: Id, e3: Id, now: Timestamp)
    requires data.employees == [SeedEmployee1(e1, m1, now), SeedEmployee2(e2, m1, now), SeedEmployee3(e3, m2, now)]
    ensures SearchEmployeesByName(data, "zzz") == NotFound("No employees found matching the search criteria.")
  {
    var es := data.employees;
    assert Fold("zzz")[0] == 'Z';
    forall i | 0 <= i < |es| ensures !ContainsIgnoreCase(es[i].fullName, "zzz") {
      var name := Fold(es[i].fullName);
      assert forall k :: 0 <= k < |name| ==> name[k] == ToUpper(es[i].fullName[k]);
      NotContainsFirstCharAbsent(name, Fold("zzz"));
    }
  }
}
