/** The `login` and `register` server actions (lib/actions/auth-actions.ts):
    decision trees over the store that answer `{ success, error }`. */
module AuthActions {
  import opened Wrappers
  import opened Passwords
  import opened Store
  import opened Auth

  const InvalidCredentials := "Invalid email or password"
  const AccountInactive := "Your account is inactive"
  const LoginError := "An error occurred during login"
  const EmailInUse := "Email already in use"
  const DefaultRoleNotFound := "Default role not found"

  /** The role every registered user gets. */
  const DefaultRoleName := "User"

  /** `{ success: true }` or `{ success: false, error }`. */
  datatype AuthResult = Succeeded | Failed(error: string)

  /** What `login` returns, and the `auth_token` cookie it sets, if any. */
  datatype LoginOutcome = LoginOutcome(result: AuthResult, cookie: Option<Token>)

  /** What `register` returns, and the store afterwards. */
  datatype RegisterOutcome = RegisterOutcome(result: AuthResult, store: Store)

  /** The `try` block of `login`: its early returns, or the error a call in
      it raised (only `createSession` can raise here). */
  function LoginAttempt(st: Store, email: string, password: string, key: string, nowMs: int): Result<LoginOutcome, string>
    requires UniqueEmails(st)
  {
    match UserIdByEmail(st, email)
    case None => Success(LoginOutcome(Failed(InvalidCredentials), None))
    case Some(id) =>
      var user := st.users[id];
      if !user.active then Success(LoginOutcome(Failed(AccountInactive), None))
      else if !VerifyPassword(password, user.passwordHash) then Success(LoginOutcome(Failed(InvalidCredentials), None))
      else
        match CreateSession(st, id, key, nowMs)
        case Failure(e) => Failure(e)
        case Success(token) => Success(LoginOutcome(Succeeded, Some(token)))
  }

  /** `login(email, password)`: an exception from the `try` block becomes
      the generic failure, never a success. The store is not written. */
  function Login(st: Store, email: string, password: string, key: string, nowMs: int): (r: LoginOutcome)
    requires UniqueEmails(st)
    ensures UserIdByEmail(st, email).None? ==> r == LoginOutcome(Failed(InvalidCredentials), None)
    ensures r.result.Succeeded? <==>
      && UserIdByEmail(st, email).Some?
      && var id := UserIdByEmail(st, email).value;
      && st.users[id].active
      && VerifyPassword(password, st.users[id].passwordHash)
      && st.users[id].roleId in st.roles
    ensures r.result.Succeeded? ==>
      && r.cookie.Some?
      && r.cookie.value == CreateSession(st, UserIdByEmail(st, email).value, key, nowMs).value
    ensures r.result.Failed? ==> r.cookie.None?
    ensures LoginAttempt(st, email, password, key, nowMs).Failure? ==> r == LoginOutcome(Failed(LoginError), None)
    ensures (&& UserIdByEmail(st, email).Some?
             && var u := st.users[UserIdByEmail(st, email).value];
             && u.active && VerifyPassword(password, u.passwordHash) && u.roleId !in st.roles)
      ==> r == LoginOutcome(Failed(LoginError), None)
  {
    match LoginAttempt(st, email, password, key, nowMs)
    case Success(outcome) => outcome
    case Failure(_) => LoginOutcome(Failed(LoginError), None)
  }

  /** An account is reported inactive before its password is checked: the
      answer is the same for every password. */
  lemma LoginInactiveIgnoresPassword(st: Store, email: string, password: string, key: string, nowMs: int)
    requires UniqueEmails(st)
    requires UserIdByEmail(st, email).Some? && !st.users[UserIdByEmail(st, email).value].active
    ensures Login(st, email, password, key, nowMs) == LoginOutcome(Failed(AccountInactive), None)
  {
  }

  /** A wrong password for an active account gets exactly the answer an
      unknown email gets, so the answer does not reveal which emails exist. */
  lemma LoginDoesNotEnumerate(st: Store, email: string, unknown: string, password: string, key: string, nowMs: int)
    requires UniqueEmails(st)
    requires UserIdByEmail(st, email).Some?
    requires var u := st.users[UserIdByEmail(st, email).value];
      u.active && !VerifyPassword(password, u.passwordHash)
    requires forall id :: id in st.users ==> st.users[id].email != unknown
    ensures Login(st, email, password, key, nowMs) == Login(st, unknown, password, key, nowMs)
  {
  }

  /** A successful login issues a session for the very user the email
      belongs to, with the live role name, which reads back until expiry. */
  lemma LoginIssuesSessionForUser(st: Store, email: string, password: string, key: string, nowMs: int)
    requires UniqueEmails(st)
    requires Login(st, email, password, key, nowMs).result.Succeeded?
    ensures var r := Login(st, email, password, key, nowMs);
      var id := UserIdByEmail(st, email).value;
      && st.users[id].email == email
      && GetSession(r.cookie, key, nowMs) == Some(r.cookie.value.claims)
      && r.cookie.value.claims.user.id == id
      && r.cookie.value.claims.user.role.name == st.roles[st.users[id].roleId].name
  {
  }

  /** `register(name, email, password)`. The database's fresh id for the new
      row and bcrypt's salt are parameters. No session is created. */
  function Register(st: Store, name: string, email: string, password: string, salt: string, newId: UserId): (r: RegisterOutcome)
    requires UniqueRoleNames(st)
    requires newId !in st.users
    ensures (exists id :: id in st.users && st.users[id].email == email) ==>
      r == RegisterOutcome(Failed(EmailInUse), st)
    ensures (forall id :: id in st.users ==> st.users[id].email != email) && RoleIdByName(st, DefaultRoleName).None? ==>
      r == RegisterOutcome(Failed(DefaultRoleNotFound), st)
    ensures r.result.Failed? ==> r.store == st
    ensures r.result.Succeeded? ==>
      && RoleIdByName(st, DefaultRoleName).Some?
      && r.store.users.Keys == st.users.Keys + {newId}
      && (forall id :: id in st.users ==> r.store.users[id] == st.users[id])
      && var u := r.store.users[newId];
      && u.name == name && u.email == email && u.active
      && u.roleId == RoleIdByName(st, DefaultRoleName).value
      && st.roles[u.roleId].name == DefaultRoleName
      && VerifyPassword(password, u.passwordHash)
      && r.store.roles == st.roles && r.store.permissions == st.permissions
      && r.store.rolePermissions == st.rolePermissions
  {
    if exists id :: id in st.users && st.users[id].email == email then
      RegisterOutcome(Failed(EmailInUse), st)
    else
      var hashed := HashPassword(password, salt);
      match RoleIdByName(st, DefaultRoleName)
      case None => RegisterOutcome(Failed(DefaultRoleNotFound), st)
      case Some(roleId) =>
        var user := User(name, email, hashed, roleId, true);
        RegisterOutcome(Succeeded, st.(users := st.users[newId := user]))
  }

  /** Registration keeps emails unique: it only inserts an email no user has. */
  lemma RegisterKeepsEmailsUnique(st: Store, name: string, email: string, password: string, salt: string, newId: UserId)
    requires UniqueRoleNames(st) && UniqueEmails(st)
    requires newId !in st.users
    ensures UniqueEmails(Register(st, name, email, password, salt, newId).store)
  {
  }

  /** Registering and then logging in with the same credentials gives a
      session for the new user whose role name is the default role's. */
  lemma RegisterThenLogin(st: Store, name: string, email: string, password: string, salt: string, newId: UserId, key: string, nowMs: int)
    requires UniqueRoleNames(st) && UniqueEmails(st)
    requires newId !in st.users
    requires forall id :: id in st.users ==> st.users[id].email != email
    requires RoleIdByName(st, DefaultRoleName).Some?
    ensures var reg := Register(st, name, email, password, salt, newId);
      && reg.result.Succeeded?
      && UniqueEmails(reg.store)
      && var login := Login(reg.store, email, password, key, nowMs);
      && login.result.Succeeded?
      && var session := GetSession(login.cookie, key, nowMs);
      && session.Some?
      && session.value.user.id == newId
      && session.value.user.role.name == DefaultRoleName
  {
  }
}
