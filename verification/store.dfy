/** The relational store the server actions read and write, as an immutable
    value: the `users`, `roles`, `permissions` and `role_permissions` tables.
    Every action of the model is a function from one store to the next. */
module Store {
  import opened Wrappers
  import opened Passwords

  type UserId = string
  type RoleId = string
  type PermissionId = string

  /** A row of `users`. */
  datatype User = User(
    name: string,
    email: string,
    passwordHash: PasswordHash,
    roleId: RoleId,
    active: bool)

  /** A row of `roles`. */
  datatype Role = Role(name: string, description: string, isSystem: bool)

  /** A row of `permissions`: seed data that no action creates or deletes. */
  datatype Permission = Permission(name: string, description: string)

  /** The four tables, keyed by primary key; `role_permissions` has the
      composite key (role_id, permission_id), so it is a set of pairs. */
  datatype Store = Store(
    users: map<UserId, User>,
    roles: map<RoleId, Role>,
    permissions: map<PermissionId, Permission>,
    rolePermissions: set<(RoleId, PermissionId)>)

  /** The schema's `UNIQUE` constraint on `users.email`. */
  predicate UniqueEmails(st: Store) {
    forall a, b :: a in st.users && b in st.users && st.users[a].email == st.users[b].email ==> a == b
  }

  /** The schema's `UNIQUE` constraint on `roles.name`. */
  predicate UniqueRoleNames(st: Store) {
    forall a, b :: a in st.roles && b in st.roles && st.roles[a].name == st.roles[b].name ==> a == b
  }

  /** The schema's `UNIQUE` constraint on `permissions.name`. */
  predicate UniquePermissionNames(st: Store) {
    forall a, b ::
      a in st.permissions && b in st.permissions && st.permissions[a].name == st.permissions[b].name ==> a == b
  }

  /** The permission ids of the `role_permissions` rows of one role. */
  function RolePermissionIds(st: Store, roleId: RoleId): (ids: set<PermissionId>)
    ensures forall pid :: pid in ids <==> (roleId, pid) in st.rolePermissions
  {
    set rp | rp in st.rolePermissions && rp.0 == roleId :: rp.1
  }

  /** An id the database may hand out for a new role: no role has it, and no
      `role_permissions` row refers to it. */
  predicate FreshRoleId(st: Store, id: RoleId) {
    id !in st.roles && forall rp :: rp in st.rolePermissions ==> rp.0 != id
  }

  /** The distinct elements of a parameter list. */
  function Elements<T(!new)>(s: seq<T>): (e: set<T>)
    ensures forall x :: x in e <==> x in s
  {
    set x | x in s
  }

  /** `SELECT id FROM users WHERE email = $1` through `queryOne`: the one
      matching row, if any (at most one exists, by the `UNIQUE` constraint). */
  function UserIdByEmail(st: Store, email: string): (r: Option<UserId>)
    requires UniqueEmails(st)
    ensures r.None? <==> forall id :: id in st.users ==> st.users[id].email != email
    ensures r.Some? ==> r.value in st.users && st.users[r.value].email == email
  {
    if exists id :: id in st.users && st.users[id].email == email then
      var id :| id in st.users && st.users[id].email == email;
      Some(id)
    else
      None
  }

  /** `SELECT id FROM roles WHERE name = $1` through `queryOne`. */
  function RoleIdByName(st: Store, name: string): (r: Option<RoleId>)
    requires UniqueRoleNames(st)
    ensures r.None? <==> forall id :: id in st.roles ==> st.roles[id].name != name
    ensures r.Some? ==> r.value in st.roles && st.roles[r.value].name == name
  {
    if exists id :: id in st.roles && st.roles[id].name == name then
      var id :| id in st.roles && st.roles[id].name == name;
      Some(id)
    else
      None
  }

  /** How a server action ended: it ran to completion, it called
      `redirect(...)`, or it threw an `Error` with the given message. */
  datatype ActionResult = Completed | Redirected(location: string) | Thrown(message: string)

  /** The store after an action, with how the action ended. */
  datatype Transition = Transition(store: Store, result: ActionResult)

  const LoginPath := "/login"

  /** `if (!session) redirect("/login")`: nothing is written. */
  function RedirectToLogin(st: Store): (t: Transition)
    ensures t.store == st && t.result.Redirected? && t.result.location == LoginPath
  {
    Transition(st, Redirected(LoginPath))
  }
}
