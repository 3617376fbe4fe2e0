/**
 * The two record kinds (models/Manager.cs, models/Employee.cs) and the shapes
 * of the handlers' responses.
 */
module Models {

  /** A GUID: opaque, compared only for equality. */
  type Id(==, !new)

  /** A UTC `DateTime`: opaque, only stored and returned. */
  type Timestamp(==, !new)

  datatype Manager = Manager(
    id: Id,
    email: string,
    password: string,
    fullName: string,
    createdDate: Timestamp)

  datatype Employee = Employee(
    id: Id,
    email: string,
    password: string,
    fullName: string,
    createdDate: Timestamp,
    managerId: Id)

  /** The body of a login request. */
  datatype LoginRequest = LoginRequest(email: string, password: string)

  /** The outcome of a handler: HTTP 200 with a payload, or an error status with its message. */
  datatype Response<+T> =
    | Ok(value: T)
    | BadRequest(message: string)
    | NotFound(message: string)
    | Unauthorized(message: string)

  /** The anonymous `{ message, employee }` payload of create, update and delete. */
  datatype EmployeeMessage = EmployeeMessage(message: string, employee: Employee)

  /** The `{ message, managerId }` payload of a registration. */
  datatype Registered = Registered(message: string, managerId: Id)

  /** The `{ message, manager }` payload of a login. */
  datatype LoggedIn = LoggedIn(message: string, manager: Manager)

  function ManagerKey(m: Manager): Id { m.id }

  function EmployeeKey(e: Employee): Id { e.id }

  /** The lookup `m => m.Id == id`. */
  function ManagerHasId(id: Id): Manager -> bool
  {
    (m: Manager) => m.id == id
  }

  /** The lookup `e => e.Id == id`. */
  function EmployeeHasId(id: Id): Employee -> bool
  {
    (e: Employee) => e.id == id
  }

  /** The filter `e => e.ManagerId == managerId`. */
  function ManagedBy(managerId: Id): Employee -> bool
  {
    (e: Employee) => e.managerId == managerId
  }
}
