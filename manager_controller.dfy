/**
 * The manager handlers (controllers/ManagerController.cs). Registration changes
 * the store; login and listing only read it.
 */
module ManagerController {
  import opened Wrappers
  import opened Models
  import opened Text
  import opened Lists
  import opened DataService

  /** The password rule: at least 6 characters, one of them upper case. */
  predicate MeetsPasswordRule(password: string)
    ensures MeetsPasswordRule(password) <==> 6 <= |password| && exists i :: 0 <= i < |password| && IsUpper(password[i])
  {
    !(|password| < 6 || !Any(password, IsUpper))
  }

  /** The rule on four sample passwords. */
  lemma PasswordRuleExamples()
    ensures !MeetsPasswordRule("abc12")
    ensures !MeetsPasswordRule("abcdef")
    ensures !MeetsPasswordRule("ABC12")
    ensures MeetsPasswordRule("Abcdef")
  {
    assert IsUpper("Abcdef"[0]);
    assert forall i :: 0 <= i < |"abcdef"| ==> !IsUpper("abcdef"[i]);
  }

  /**
   * POST manager/register. Checks run in order: a missing body or blank name,
   * then the password rule, then the email shape (`isValidEmail`, the
   * `MailAddress` parse). Any rejection leaves the store as it was; success
   * appends the manager with a fresh id and the current time and returns the id.
   */
  method RegisterManager(
    data: InMemoryData, newManager: Option<Manager>, isValidEmail: string -> bool, newId: Id, now: Timestamp)
    returns (r: Response<Registered>)
    requires data.Valid()
    requires data.IsFreshManagerId(newId)
    modifies data
    ensures data.Valid()
    ensures data.employees == old(data.employees)
    ensures
      if newManager.None? || IsNullOrWhiteSpace(newManager.value.fullName) then
        r == BadRequest("Manager details are required.") && data.managers == old(data.managers)
      else if !MeetsPasswordRule(newManager.value.password) then
        r == BadRequest("Password must be at least 6 characters long and contain at least one uppercase letter.")
        && data.managers == old(data.managers)
      else if !isValidEmail(newManager.value.email) then
        r == BadRequest("Invalid email format.") && data.managers == old(data.managers)
      else
        r == Ok(Registered("Manager registered successfully!", newId))
        && data.managers == old(data.managers) + [newManager.value.(id := newId, createdDate := now)]
  {
    if newManager.None? || IsNullOrWhiteSpace(newManager.value.fullName) {
      return BadRequest("Manager details are required.");
    }
    var m := newManager.value;
    if IsNullOrWhiteSpace(m.fullName) {
      // The handler's second blank-name check: the first one already rejected every such name.
      assert false;
      return BadRequest("Full Name is required.");
    }
    if |m.password| < 6 || !Any(m.password, IsUpper) {
      return BadRequest("Password must be at least 6 characters long and contain at least one uppercase letter.");
    }
    if !isValidEmail(m.email) {
      return BadRequest("Invalid email format.");
    }
    var registered := m.(id := newId, createdDate := now);
    AppendKeepsDistinct(data.managers, ManagerKey, registered);
    data.managers := data.managers + [registered];
    r := Ok(Registered("Manager registered successfully!", registered.id));
  }

  /** Adding a manager never breaks the foreign-key condition of the employees. */
  lemma RegisterKeepsManagersResolved(managers: seq<Manager>, employees: seq<Employee>, m: Manager)
    requires ManagersResolve(managers, employees)
    ensures ManagersResolve(managers + [m], employees)
  {
    forall i | 0 <= i < |employees| ensures ManagerExists(managers + [m], employees[i].managerId) {
      var j :| 0 <= j < |managers| && managers[j].id == employees[i].managerId;
      assert (managers + [m])[j] == managers[j];
    }
  }

  /** The login lookup `m => m.Email.Equals(email, StringComparison.OrdinalIgnoreCase)`. */
  function EmailMatches(email: string): Manager -> bool
  {
    (m: Manager) => EqualsIgnoreCase(m.email, email)
  }

  /** Position `i` holds the first manager whose email equals `email` ignoring case. */
  ghost predicate FirstWithEmail(managers: seq<Manager>, email: string, i: int)
    ensures FirstWithEmail(managers, email, i) <==> FirstIndex(managers, EmailMatches(email)) == Some(i)
  {
    && 0 <= i < |managers|
    && EqualsIgnoreCase(managers[i].email, email)
    && forall j :: 0 <= j < i ==> !EqualsIgnoreCase(managers[j].email, email)
  }

  /** Both fields of the login request are present and not blank. */
  predicate IsCompleteLogin(loginRequest: Option<LoginRequest>)
    ensures IsCompleteLogin(loginRequest) <==>
      && loginRequest.Some?
      && (exists i :: 0 <= i < |loginRequest.value.email| && !IsWhiteSpace(loginRequest.value.email[i]))
      && (exists i :: 0 <= i < |loginRequest.value.password| && !IsWhiteSpace(loginRequest.value.password[i]))
  {
    && loginRequest.Some?
    && !IsNullOrWhiteSpace(loginRequest.value.email)
    && !IsNullOrWhiteSpace(loginRequest.value.password)
  }

  /**
   * POST manager/login: the first manager whose email equals the request's,
   * ignoring case, logs in when the stored password equals the given one exactly.
   */
  function LoginManager(data: InMemoryData, loginRequest: Option<LoginRequest>): (r: Response<LoggedIn>)
    reads data
    ensures r.Ok? || r.BadRequest? || r.Unauthorized?
    ensures r.Unauthorized? ==> r.message == "Manager not found." || r.message == "Incorrect password."
    ensures r.BadRequest? <==> !IsCompleteLogin(loginRequest)
    ensures r.BadRequest? ==> r.message == "Email and Password are required."
    ensures r == Unauthorized("Manager not found.") <==>
      && IsCompleteLogin(loginRequest)
      && forall i :: 0 <= i < |data.managers| ==> !EqualsIgnoreCase(data.managers[i].email, loginRequest.value.email)
    ensures r == Unauthorized("Incorrect password.") <==>
      && IsCompleteLogin(loginRequest)
      && exists i :: FirstWithEmail(data.managers, loginRequest.value.email, i)
                     && data.managers[i].password != loginRequest.value.password
    ensures r.Ok? <==>
      && IsCompleteLogin(loginRequest)
      && exists i :: FirstWithEmail(data.managers, loginRequest.value.email, i)
                     && data.managers[i].password == loginRequest.value.password
    ensures r.Ok? ==> exists i :: FirstWithEmail(data.managers, loginRequest.value.email, i)
                                  && data.managers[i].password == loginRequest.value.password
                                  && r.value == LoggedIn("Login successful", data.managers[i])
  {
    if !IsCompleteLogin(loginRequest) then
      BadRequest("Email and Password are required.")
    else
      var request := loginRequest.value;
      match FirstIndex(data.managers, EmailMatches(request.email))
      case None =>
        assert forall i :: 0 <= i < |data.managers| ==> !EmailMatches(request.email)(data.managers[i]);
        Unauthorized("Manager not found.")
      case Some(i) =>
        assert EmailMatches(request.email)(data.managers[i]);
        assert forall j :: 0 <= j < i ==> !EmailMatches(request.email)(data.managers[j]);
        assert FirstWithEmail(data.managers, request.email, i);
        if data.managers[i].password != request.password then
          Unauthorized("Incorrect password.")
        else
          Ok(LoggedIn("Login successful", data.managers[i]))
  }

  /** The email's case does not matter: emails equal up to case give the same response. */
  lemma LoginIgnoresEmailCase(data: InMemoryData, email: string, other: string, password: string)
    requires Fold(email) == Fold(other)
    ensures LoginManager(data, Some(LoginRequest(email, password))) == LoginManager(data, Some(LoginRequest(other, password)))
  {
    BlankIgnoresCase(email, other);
    FirstIndexSamePredicate(data.managers, EmailMatches(email), EmailMatches(other));
  }

  /**
   * Emails are not unique, and only the first manager with a given email can
   * log in: whatever the password, a login with that email never returns a
   * manager registered after another with the same email.
   */
  lemma ShadowedManagerCannotLogin(data: InMemoryData, i: nat, j: nat, email: string, password: string)
    requires data.Valid()
    requires i < j < |data.managers|
    requires EqualsIgnoreCase(data.managers[i].email, email)
    ensures var r := LoginManager(data, Some(LoginRequest(email, password)));
            r.Ok? ==> r.value.manager.id != data.managers[j].id
  {
    var ms := data.managers;
    var r := LoginManager(data, Some(LoginRequest(email, password)));
    if r.Ok? {
      var k :| FirstWithEmail(ms, email, k) && r.value == LoggedIn("Login successful", ms[k]);
      assert k <= i;
      assert ManagerKey(ms[k]) != ManagerKey(ms[j]);
    }
  }

  /**
   * On the seeded store, manager 1 logs in with a differently-cased email and
   * the right password, and is refused with a wrong one.
   */
  lemma SeedLogin(data: InMemoryData, m1: Id, m2: Id, now: Timestamp)
    requires data.managers == [SeedManager1(m1, now), SeedManager2(m2, now)]
    ensures LoginManager(data, Some(LoginRequest("Manager1@Example.com", "hashedpassword1")))
            == Ok(LoggedIn("Login successful", SeedManager1(m1, now)))
    ensures LoginManager(data, Some(LoginRequest("Manager1@Example.com", "wrong")))
            == Unauthorized("Incorrect password.")
  {
    var email := "Manager1@Example.com";
    assert Fold(data.managers[0].email) == Fold(email);
    assert FirstWithEmail(data.managers, email, 0);
    assert !IsWhiteSpace(email[0]) && !IsWhiteSpace("hashedpassword1"[0]) && !IsWhiteSpace("wrong"[0]);
  }

  /** GET manager/all: every stored manager, in store order. */
  function GetAllManagers(data: InMemoryData): (r: Response<seq<Manager>>)
    reads data
    ensures r.Ok? && |r.value| == |data.managers|
    ensures forall i :: 0 <= i < |r.value| ==> r.value[i] == data.managers[i]
  {
    Ok(data.managers)
  }
}
