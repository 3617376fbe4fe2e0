/**
 * The in-memory entity store (DataService.cs): the two process-wide lists and
 * the seeding done by the static constructor.
 */
module DataService {
  import opened Models
  import opened Lists

  /** A manager with this id is stored. */
  ghost predicate ManagerExists(managers: seq<Manager>, id: Id)
    ensures ManagerExists(managers, id) <==> FirstIndex(managers, ManagerHasId(id)).Some?
  {
    exists i :: 0 <= i < |managers| && managers[i].id == id
  }

  /** Every employee's `ManagerId` names a stored manager (the foreign-key condition). */
  ghost predicate ManagersResolve(managers: seq<Manager>, employees: seq<Employee>) {
    forall i :: 0 <= i < |employees| ==> ManagerExists(managers, employees[i].managerId)
  }

  /** The first seeded manager, created with id `id` at time `now`. */
  function SeedManager1(id: Id, now: Timestamp): Manager {
    Manager(id, "manager1@example.com", "hashedpassword1", "Manager One", now)
  }

  function SeedManager2(id: Id, now: Timestamp): Manager {
    Manager(id, "manager2@example.com", "hashedpassword2", "Manager Two", now)
  }

  /** The first seeded employee, reporting to the manager with id `managerId`. */
  function SeedEmployee1(id: Id, managerId: Id, now: Timestamp): Employee {
    Employee(id, "employee1@example.com", "hashedpassword3", "Employee One", now, managerId)
  }

  function SeedEmployee2(id: Id, managerId: Id, now: Timestamp): Employee {
    Employee(id, "employee2@example.com", "hashedpassword4", "Employee Two", now, managerId)
  }

  function SeedEmployee3(id: Id, managerId: Id, now: Timestamp): Employee {
    Employee(id, "employee3@example.com", "hashedpassword5", "Employee Three", now, managerId)
  }

  /**
   * `InMemoryData`: the store every handler reads and changes. Ids are generated
   * fresh, so no two managers and no two employees share an id (`Valid`).
   */
  class InMemoryData {
    var managers: seq<Manager>
    var employees: seq<Employee>

    ghost predicate Valid()
      reads this
      ensures Valid() ==> forall i, j :: 0 <= i < j < |employees| ==> employees[i].id != employees[j].id
      ensures Valid() ==> forall i, j :: 0 <= i < j < |managers| ==> managers[i].id != managers[j].id
    {
      Distinct(managers, ManagerKey) && Distinct(employees, EmployeeKey)
    }

    /** `id` is not the id of any stored manager (what `Guid.NewGuid()` provides). */
    ghost predicate IsFreshManagerId(id: Id)
      reads this
    {
      forall i :: 0 <= i < |managers| ==> managers[i].id != id
    }

    /** `id` is not the id of any stored employee. */
    ghost predicate IsFreshEmployeeId(id: Id)
      reads this
    {
      forall i :: 0 <= i < |employees| ==> employees[i].id != id
    }

    /**
     * The static constructor: two managers, then three employees, appended one by
     * one. Employees 1 and 2 report to manager 1, employee 3 to manager 2. The
     * ids are the GUIDs each record drew when it was built.
     */
    constructor (m1: Id, m2: Id, e1: Id, e2: Id, e3: Id, now: Timestamp)
      requires m1 != m2
      requires e1 != e2 && e1 != e3 && e2 != e3
      ensures Valid()
      ensures managers == [SeedManager1(m1, now), SeedManager2(m2, now)]
      ensures employees == [SeedEmployee1(e1, m1, now), SeedEmployee2(e2, m1, now), SeedEmployee3(e3, m2, now)]
    {
      var manager1 := SeedManager1(m1, now);
      var manager2 := SeedManager2(m2, now);
      managers := [];
      managers := managers + [manager1];
      managers := managers + [manager2];

      var employee1 := SeedEmployee1(e1, manager1.id, now);
      var employee2 := SeedEmployee2(e2, manager1.id, now);
      var employee3 := SeedEmployee3(e3, manager2.id, now);
      employees := [];
      employees := employees + [employee1];
      employees := employees + [employee2];
      employees := employees + [employee3];
    }
  }

  /** The seeded employees all report to a seeded manager. */
  lemma SeedManagersResolve(m1: Id, m2: Id, e1: Id, e2: Id, e3: Id, now: Timestamp)
    ensures ManagersResolve(
      [SeedManager1(m1, now), SeedManager2(m2, now)],
      [SeedEmployee1(e1, m1, now), SeedEmployee2(e2, m1, now), SeedEmployee3(e3, m2, now)])
  {
    var ms := [SeedManager1(m1, now), SeedManager2(m2, now)];
    assert ms[0].id == m1 && ms[1].id == m2;
  }
}
