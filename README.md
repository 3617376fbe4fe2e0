# Employee/manager API: the entity store and its handlers, in Dafny

This project models the domain logic of a small ASP.NET service that keeps
managers and employees in memory. The store holds two lists. It is seeded
with two managers and three employees. Two groups of request handlers read
and change it:

- Manager handlers: register, login, list all.
- Employee handlers: list all, create, list by manager, update, delete,
  search by name.

Modules, one per source component:

- `Models` (models.dfy): the `Manager` and `Employee` records as datatypes.
  It also holds the opaque `Id` (a GUID) and `Timestamp` (a UTC `DateTime`)
  types, and a `Response` datatype standing for the HTTP results:
  `Ok(payload)`, `BadRequest(msg)`, `NotFound(msg)` and `Unauthorized(msg)`.
- `DataService` (data_service.dfy): the store as class `InMemoryData`, with
  two `seq` fields. Its constructor appends the seed records one by one.
  `Valid()` says that ids are unique within each list.
- `EmployeeController` and `ManagerController`: one member per handler.
  - Read-only handlers are functions that `reads` the store.
  - Create, update, delete and register are methods that `modifies` it.
    Their `ensures` give the whole new state in terms of the old one.
- `Lists`: the LINQ/`List` operations the handlers use (`Where`,
  `FirstOrDefault` as the index it selects, `Any`, removal of one position).
- `Text`: `string.IsNullOrWhiteSpace`, `char.IsUpper`, ordinal `Contains` and
  `OrdinalIgnoreCase` comparison.
- `Wrappers`: `Option`, which stands for a request body that may be null.

Outside inputs become parameters:

- The fresh GUID is a parameter `newId`. A precondition says that no record
  in the list it joins already has that id.
- The clock (`DateTime.UtcNow`) is a parameter `now`.
- The email-shape check (`IsValidEmail`, a `System.Net.Mail.MailAddress`
  parse) is a parameter `isValidEmail: string -> bool`, so it stays
  uninterpreted.

## Model

| member | source | states |
|---|---|---|
| `DataService.InMemoryData.constructor` | DataService.cs:12-60 | after seeding, `managers` is exactly [manager1, manager2] and `employees` is exactly [employee1, employee2, employee3], with the seed emails, passwords and names; employees 1 and 2 reference manager1's id and employee 3 references manager2's; ids are unique in each list |
| `DataService.SeedManagersResolve` | DataService.cs:28-58 | every seeded employee's `ManagerId` names a seeded manager, which is the foreign-key condition that create enforces |
| `EmployeeController.GetAllEmployees` | controllers/EmployeeController.cs:16-20 | returns Ok with every stored employee, position by position in store order; as a function of the store it cannot change it |
| `EmployeeController.CreateEmployee` | controllers/EmployeeController.cs:25-49 | a null body or blank `FullName` gives BadRequest "Employee details are required."; then a `ManagerId` naming no stored manager gives BadRequest "Manager not found."; on both failures the employees are unchanged. Otherwise exactly one record is appended at the end: the body with the fresh id and the current time. It is returned in Ok with "Employee created successfully!". Managers never change and ids stay unique. The lookup `m => m.Id == employee.ManagerId` is `Models.ManagerHasId` |
| `EmployeeController.CreateKeepsManagersResolved` | controllers/EmployeeController.cs:34-45 | an append that passed the manager-existence check keeps every employee's manager resolvable |
| `EmployeeController.GetEmployeesByManager` | controllers/EmployeeController.cs:54-64 | NotFound "No employees found for this manager." exactly when no employee has that `ManagerId`, whether or not such a manager exists. Otherwise Ok with the `Where` filter of the store: every returned employee has that manager, and every stored one with it is returned. The filter `e => e.ManagerId == managerId` is `Models.ManagedBy` |
| `EmployeeController.Patched` | controllers/EmployeeController.cs:80-82 | the updated record takes `Email`, `FullName` and `ManagerId` from the patch and keeps `Id`, `Password` and `CreatedDate` |
| `EmployeeController.UpdateEmployee` | controllers/EmployeeController.cs:69-85 | an id no employee has gives NotFound "Employee not found." and no change. Otherwise only the first record with that id is replaced by its patched form, in place. The list length and every other record are unchanged, and Ok returns the updated record. The new `ManagerId` is not checked. Managers never change and ids stay unique. The lookup `e => e.Id == id` is `Models.EmployeeHasId` |
| `EmployeeController.UpdateTargetsTheId` | controllers/EmployeeController.cs:72-82 | with unique ids, the record the lookup selects is the one holding the id, and after the update the id is still found at that position |
| `EmployeeController.UpdateMayLeaveDanglingManager` | controllers/EmployeeController.cs:82 | patching in a manager id that names no manager breaks the foreign-key condition, because update never re-checks it |
| `EmployeeController.DeleteEmployee` | controllers/EmployeeController.cs:90-104 | an unknown id gives NotFound "Employee not found." and no change. Otherwise the first record with that id is removed and returned in Ok. The others keep their relative order and the length drops by one. Managers never change and ids stay unique. The lookup `e => e.Id == id` is `Models.EmployeeHasId` |
| `EmployeeController.DeleteTwiceFindsNothing` | controllers/EmployeeController.cs:93-101 | with unique ids, after a delete the id is no longer found, so deleting it a second time gives NotFound |
| `EmployeeController.DeleteKeepsManagersResolved` | controllers/EmployeeController.cs:101 | removing an employee keeps every remaining employee's manager resolvable |
| `EmployeeController.SearchEmployeesByName` | controllers/EmployeeController.cs:109-128 | BadRequest "Name parameter is required." exactly for a blank query. NotFound exactly when the query is not blank and no full name contains it ignoring case. Otherwise Ok with the employees whose full name contains the query ignoring case: all of them, only them, in store order. The filter is `EmployeeController.NameMatches` |
| `EmployeeController.SearchIgnoresQueryCase` | controllers/EmployeeController.cs:112-119 | two queries that differ only in letter case give the same response |
| `EmployeeController.SearchNarrows` | controllers/EmployeeController.cs:118-120 | for auto-complete, every employee that passes the name filter for a longer query also passes it for any query that the longer one contains |
| `EmployeeController.SearchResultNarrows` | controllers/EmployeeController.cs:109-128 | when a longer query gets Ok, any non-blank query it contains, ignoring case, also gets Ok, and every employee found for the longer query is found for it. A blank query is answered BadRequest instead |
| `EmployeeController.MatchesEmployee` | DataService.cs:36 | a full name that begins "Employee" matches the query "employee" |
| `EmployeeController.SeedEmployeesOfManager1` | DataService.cs:32-58 | on the seeded store, listing by manager1's id gives exactly [employee1, employee2] |
| `EmployeeController.SeedSearchEmployee` | DataService.cs:36-53 | on the seeded store, searching "employee" returns all three seeded employees in store order |
| `EmployeeController.SeedSearchZzz` | controllers/EmployeeController.cs:122-125 | on the seeded store, searching "zzz" gives NotFound |
| `ManagerController.PasswordRuleExamples` | controllers/ManagerController.cs:28-31 | "abc12" (too short), "abcdef" (no upper case) and "ABC12" fail the password rule; "Abcdef" passes |
| `ManagerController.RegisterManager` | controllers/ManagerController.cs:14-46 | the checks run in order. A null body or blank name gives BadRequest "Manager details are required."; the second blank-name check can never fire. A password under 6 characters or without an upper-case letter is rejected next, then an email `isValidEmail` refuses. Every rejection leaves the managers unchanged. On success exactly one manager is appended: the body with the fresh id and the current time. Ok returns that same id. Employees never change and ids stay unique |
| `ManagerController.RegisterKeepsManagersResolved` | controllers/ManagerController.cs:43 | appending a manager keeps every employee's manager resolvable |
| `ManagerController.LoginManager` | controllers/ManagerController.cs:65-89 | the response is BadRequest, Unauthorized or Ok, nothing else. BadRequest "Email and Password are required." exactly for a null request or a blank email or password. Unauthorized carries only one of the two messages. "Manager not found." exactly when the request is complete and no manager's email equals the given one ignoring case. "Incorrect password." exactly when the first such manager's password differs. Ok exactly when that first manager's password is the given one, returning that manager. It cannot change the store. The lookup by email is `ManagerController.EmailMatches` |
| `ManagerController.LoginIgnoresEmailCase` | controllers/ManagerController.cs:74 | two emails that differ only in letter case give the same login response |
| `ManagerController.ShadowedManagerCannotLogin` | controllers/ManagerController.cs:74-88 | emails are not unique: a manager registered after another with the same email, up to case, is never the one a login returns |
| `ManagerController.SeedLogin` | controllers/ManagerController.cs:74-88 | on the seeded store, "Manager1@Example.com" with manager1's password logs manager1 in, and with a wrong password gives Unauthorized "Incorrect password." |
| `ManagerController.GetAllManagers` | controllers/ManagerController.cs:94-98 | returns Ok with every stored manager, passwords included, position by position in store order |
| `Lists.Where` | controllers/EmployeeController.cs:56 | `Where(...).ToList()` returns only elements of the input that pass the filter, and every one that passes; it is empty exactly when none passes |
| `Lists.WhereConcat` | controllers/EmployeeController.cs:118-120 | filtering keeps store order: filtering a concatenation gives the concatenation of the filtered parts |
| `Lists.WhereAll` | controllers/EmployeeController.cs:56 | a filter that every element passes returns the whole list unchanged |
| `Lists.WhereSamePredicate` | controllers/EmployeeController.cs:119 | filters that agree on every element select the same result |
| `Lists.Any` | controllers/ManagerController.cs:28 | `Any(p)` holds exactly when some element satisfies `p` |
| `Lists.FirstIndex` | controllers/EmployeeController.cs:72 | `FirstOrDefault` selects a position whose element satisfies the predicate and before which none does; it finds nothing exactly when no element satisfies it |
| `Lists.FirstIndexSamePredicate` | controllers/ManagerController.cs:74 | lookups that agree on every element select the same position |
| `Lists.FirstIndexOfDistinct` | controllers/EmployeeController.cs:93 | under unique ids, the lookup by an element's id selects that element's own position |
| `Lists.RemoveAt` | controllers/EmployeeController.cs:101 | `Remove` of the found record drops one position. Elements before it keep their index, those after it shift down by one, and the multiset loses exactly the removed record |
| `Lists.RemoveAtDistinct` | controllers/EmployeeController.cs:101 | removal keeps ids unique, and the removed id no longer occurs |
| `Lists.UpdateKeepsDistinct` | controllers/EmployeeController.cs:80-82 | replacing a record by one with the same id keeps ids unique |
| `Lists.AppendKeepsDistinct` | controllers/EmployeeController.cs:41-45 | appending a record with a fresh id keeps ids unique |
| `DataService.ManagerExists` | controllers/EmployeeController.cs:34-35 | a manager id resolves exactly when the `FirstOrDefault` lookup by that id finds a manager, that is, when the result is not null |
| `DataService.InMemoryData.Valid` | DataService.cs:8-9 | in a valid store no two employees share an id and no two managers share an id, the uniqueness that `Guid.NewGuid()` provides |
| `ManagerController.MeetsPasswordRule` | controllers/ManagerController.cs:28 | a password passes exactly when it has at least 6 characters and some character is an upper-case letter. In the model `char.IsUpper` is `Text.IsUpper`, the ASCII letters `A` to `Z` only |
| `ManagerController.IsCompleteLogin` | controllers/ManagerController.cs:68 | a login request is complete exactly when it is present and both its email and its password hold a character that is not white space |
| `ManagerController.FirstWithEmail` | controllers/ManagerController.cs:74 | position `i` is the first manager whose email equals the given one ignoring case exactly when the `FirstOrDefault` lookup selects position `i` |
| `Text.IsWhiteSpace` | controllers/EmployeeController.cs:28 | space, tab, line feed and carriage return are white space; no ASCII letter or digit is |
| `Text.EqualsIgnoreCase` | controllers/ManagerController.cs:74 | two strings are equal ignoring case exactly when they have the same length and each pair of characters is equal or is the same ASCII letter in the other case; every string equals itself |
| `Text.ContainsIgnoreCase` | controllers/EmployeeController.cs:119 | a haystack contains a needle ignoring case exactly when some window of the haystack, of the needle's length, equals the needle ignoring case. This needs the needle to be no longer than the haystack |
| `Text.IsNullOrWhiteSpace` | controllers/EmployeeController.cs:28 | a string is blank exactly when every character is white space (the empty string included) |
| `Text.ToUpper` | controllers/ManagerController.cs:74 | folding maps each ASCII lower-case letter to its upper-case partner (code point minus 32), never yields a lower-case letter, and leaves every other character alone |
| `Text.FoldSlice` | controllers/EmployeeController.cs:119 | folding a slice of a string gives the same slice of the folded string |
| `Text.FoldedOccurrences` | controllers/EmployeeController.cs:119 | a window of the haystack matches the needle ignoring case exactly when the folded needle occurs in the folded haystack at that offset |
| `Text.BlankIgnoresCase` | controllers/ManagerController.cs:68 | strings equal up to case are both blank or both not blank |
| `Text.Contains` | controllers/EmployeeController.cs:119 | `Contains` holds exactly when the needle occurs in the haystack at some offset |
| `Text.ContainsTransitive` | controllers/EmployeeController.cs:119 | an occurrence of an occurrence is an occurrence |
| `Text.ContainsIgnoreCaseNarrows` | controllers/EmployeeController.cs:119 | a name containing a longer query, ignoring case, contains every query the longer one contains |
| `Text.NotContainsFirstCharAbsent` | controllers/EmployeeController.cs:119 | a needle whose first character never occurs in the haystack is not contained in it |
| `Text.ContainsIgnoreCasePrefix` | controllers/EmployeeController.cs:119 | a haystack that starts with the needle, up to case, contains it ignoring case |

## Left out

- Everything in `Program.cs` is not modelled: host setup, logging, CORS,
  Swagger, HTTPS redirection, the exception middleware (the 500 path) and
  the weather-forecast demo with its random numbers and floating point.
- HTTP routing and model binding are not modelled. Handlers take their
  inputs as values, and the `Response` datatype replaces `IActionResult`.
- `Guid.NewGuid()` is modelled as a caller-chosen `newId` that is not yet an
  id in its list. `DateTime.UtcNow` is a parameter. The seed records share
  one timestamp, while the source reads the clock once per record.
- `IsValidEmail` (`System.Net.Mail.MailAddress`) is an uninterpreted
  parameter. So the claims that "not-an-email" fails and "a@b.com" passes
  are not stated.
- `char.IsUpper` is reduced to ASCII `A`-`Z`. `OrdinalIgnoreCase` is reduced
  to ASCII upper-casing. `char.IsWhiteSpace` is modelled with its full set of
  characters. String length counts Unicode scalar values, not UTF-16 code
  units, so the 6-character password rule differs for characters outside
  the Basic Multilingual Plane.
- Strings inside records and requests are never null in the model. Only a
  null request body is modelled, as `None`, and only where the handler
  checks for it (create, register, login).
- `EmployeeController.UpdateEmployee`: the body is always present in the
  model. In the source a null patch throws after the lookup, which gives
  the generic 500 response.
- Records are values. In the source they are shared objects: the record
  returned by update or create is the one stored, so later updates show
  through earlier results. That aliasing is not modelled.
- `Manager.Employees`, the navigation list, is not modelled. Model binding
  fills it from the register request body, and the source stores it and
  echoes it back from list-all and login. The model drops the list, so that
  echo of client data is not captured.
- The shape of the 404 payloads is flattened. Update and delete return an
  object `{ message = "Employee not found." }`, while list-by-manager and
  search return a bare string. The model gives all four as `NotFound(msg)`.
- The store's lists are shared across requests without locking. Concurrent
  requests are not modelled; every handler runs as one atomic step.
- The C# class `LoginRequest` is not among the modelled source files. The
  `LoginRequest` datatype takes its two fields, email and password, from how
  the login handler uses them.
