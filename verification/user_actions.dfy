/** The user server actions (lib/actions/user-actions.ts). As with roles,
    each mutation checks only that a session exists; `deleteUser` also
    refuses the caller's own id, and `updateProfile` writes only the
    caller's own row. */
module UserActions {
  import opened Wrappers
  import opened Passwords
  import opened Store
  import opened Auth

  const CannotDeleteSelf := "Cannot delete your own account"
  const UserNotFound := "User not found"
  const CurrentPasswordIncorrect := "Current password is incorrect"

  /** `CreateUserData`. */
  datatype NewUser = NewUser(name: string, email: string, password: string, roleId: RoleId, active: bool)

  /** `UpdateUserData`: the password is optional. */
  datatype UserUpdate = UserUpdate(name: string, email: string, password: Option<string>, roleId: RoleId, active: bool)

  /** `UpdateProfileData`: both passwords are optional. */
  datatype ProfileUpdate = ProfileUpdate(
    name: string,
    email: string,
    currentPassword: Option<string>,
    newPassword: Option<string>)

  /** What `getUserById` returns. */
  datatype UserView = UserView(id: UserId, name: string, email: string, roleId: RoleId, roleName: string, active: bool)

  /** `getUserById(id)`: the user joined with its role; null when either row
      is missing. The password hash is never returned. */
  function GetUserById(st: Store, id: UserId): (r: Option<UserView>)
    ensures r.Some? <==> id in st.users && st.users[id].roleId in st.roles
    ensures r.Some? ==>
      var u := st.users[id];
      r.value == UserView(id, u.name, u.email, u.roleId, st.roles[u.roleId].name, u.active)
  {
    if id in st.users && st.users[id].roleId in st.roles then
      var u := st.users[id];
      Some(UserView(id, u.name, u.email, u.roleId, st.roles[u.roleId].name, u.active))
    else
      None
  }

  /** Only `users` changes. */
  predicate OnlyUsersChanged(before: Store, after: Store) {
    && after.roles == before.roles
    && after.permissions == before.permissions
    && after.rolePermissions == before.rolePermissions
  }

  /** `createUser(data)`: inserts the row under the database's fresh id with a
      freshly salted hash of the given password. */
  function CreateUser(st: Store, session: Option<UserSession>, data: NewUser, salt: string, newId: UserId): (r: Transition)
    requires newId !in st.users
    ensures session.None? ==> r == RedirectToLogin(st)
    ensures session.Some? ==>
      && r.result.Completed?
      && OnlyUsersChanged(st, r.store)
      && r.store.users.Keys == st.users.Keys + {newId}
      && (forall id :: id in st.users ==> r.store.users[id] == st.users[id])
      && var u := r.store.users[newId];
      && u.name == data.name && u.email == data.email && u.roleId == data.roleId && u.active == data.active
      && (forall p :: VerifyPassword(p, u.passwordHash) <==> BcryptEquivalent(p, data.password))
  {
    if session.None? then RedirectToLogin(st)
    else
      var user := User(data.name, data.email, HashPassword(data.password, salt), data.roleId, data.active);
      Transition(st.(users := st.users[newId := user]), Completed)
  }

  /** `updateUser(id, data)`: a truthy password is hashed and stored with the
      other fields; otherwise the stored hash is kept. An id with no row is
      matched by no `UPDATE` and nothing changes. */
  function UpdateUser(st: Store, session: Option<UserSession>, id: UserId, data: UserUpdate, salt: string): (r: Transition)
    ensures session.None? ==> r == RedirectToLogin(st)
    ensures session.Some? ==>
      && r.result.Completed?
      && OnlyUsersChanged(st, r.store)
      && r.store.users.Keys == st.users.Keys
      && (forall other :: other in st.users && other != id ==> r.store.users[other] == st.users[other])
      && (id in st.users ==>
            var u := r.store.users[id];
            && u.name == data.name && u.email == data.email
            && u.roleId == data.roleId && u.active == data.active
            && (Truthy(data.password) ==> (forall p :: VerifyPassword(p, u.passwordHash) <==> BcryptEquivalent(p, data.password.value)))
            && (!Truthy(data.password) ==> u.passwordHash == st.users[id].passwordHash))
  {
    if session.None? then RedirectToLogin(st)
    else if id !in st.users then Transition(st, Completed)
    else
      var existing := st.users[id];
      var hash := if Truthy(data.password) then HashPassword(data.password.value, salt) else existing.passwordHash;
      var user := User(data.name, data.email, hash, data.roleId, data.active);
      Transition(st.(users := st.users[id := user]), Completed)
  }

  /** `deleteUser(id)`: the caller's own id throws before anything is
      written; any other id loses its row (a missing one is a no-op). */
  function DeleteUser(st: Store, session: Option<UserSession>, id: UserId): (r: Transition)
    ensures session.None? ==> r == RedirectToLogin(st)
    ensures session.Some? && session.value.user.id == id ==> r == Transition(st, Thrown(CannotDeleteSelf))
    ensures session.Some? && session.value.user.id != id ==>
      && r.result.Completed?
      && OnlyUsersChanged(st, r.store)
      && r.store.users.Keys == st.users.Keys - {id}
      && (forall other :: other in r.store.users ==> r.store.users[other] == st.users[other])
  {
    if session.None? then RedirectToLogin(st)
    else if session.value.user.id == id then Transition(st, Thrown(CannotDeleteSelf))
    else Transition(st.(users := st.users - {id}), Completed)
  }

  /** `updateProfile(data)`: writes only the session user's name and email,
      and its password when both passwords are truthy and the current one
      verifies against the stored hash. A new password without the current
      one is dropped without a word. */
  function UpdateProfile(st: Store, session: Option<UserSession>, data: ProfileUpdate, salt: string): (r: Transition)
    ensures session.None? ==> r == RedirectToLogin(st)
    ensures r.result.Thrown? ==> r.store == st
    ensures session.Some? && !(Truthy(data.newPassword) && Truthy(data.currentPassword)) ==> r.result.Completed?
    ensures session.Some? && Truthy(data.newPassword) && Truthy(data.currentPassword) ==>
      var id := session.value.user.id;
      && (id !in st.users ==> r == Transition(st, Thrown(UserNotFound)))
      && (id in st.users && !VerifyPassword(data.currentPassword.value, st.users[id].passwordHash) ==>
            r == Transition(st, Thrown(CurrentPasswordIncorrect)))
      && (id in st.users && VerifyPassword(data.currentPassword.value, st.users[id].passwordHash) ==>
            && r.result.Completed?
            && id in r.store.users
            && forall p :: VerifyPassword(p, r.store.users[id].passwordHash) <==> BcryptEquivalent(p, data.newPassword.value))
    ensures r.result.Completed? ==>
      var id := session.value.user.id;
      && OnlyUsersChanged(st, r.store)
      && r.store.users.Keys == st.users.Keys
      && (forall other :: other in st.users && other != id ==> r.store.users[other] == st.users[other])
      && (id in st.users ==>
            var before := st.users[id];
            var u := r.store.users[id];
            && u.name == data.name && u.email == data.email
            && u.roleId == before.roleId && u.active == before.active
            && (u.passwordHash != before.passwordHash ==>
                  Truthy(data.newPassword) && Truthy(data.currentPassword)
                  && VerifyPassword(data.currentPassword.value, before.passwordHash)
                  && (forall p :: VerifyPassword(p, u.passwordHash) <==> BcryptEquivalent(p, data.newPassword.value))))
  {
    if session.None? then RedirectToLogin(st)
    else
      var id := session.value.user.id;
      if Truthy(data.newPassword) && Truthy(data.currentPassword) then
        if id !in st.users then Transition(st, Thrown(UserNotFound))
        else if !VerifyPassword(data.currentPassword.value, st.users[id].passwordHash) then
          Transition(st, Thrown(CurrentPasswordIncorrect))
        else
          var hash := HashPassword(data.newPassword.value, salt);
          Transition(st.(users := st.users[id := st.users[id].(name := data.name, email := data.email, passwordHash := hash)]), Completed)
      else if id !in st.users then Transition(st, Completed)
      else
        Transition(st.(users := st.users[id := st.users[id].(name := data.name, email := data.email)]), Completed)
  }

  /** With a new password but no current one, only name and email change
      and the stored hash is kept. */
  lemma ProfileNewPasswordWithoutCurrentIsIgnored(st: Store, session: UserSession, data: ProfileUpdate, salt: string)
    requires session.user.id in st.users
    requires Truthy(data.newPassword) && !Truthy(data.currentPassword)
    ensures var r := UpdateProfile(st, Some(session), data, salt);
      && r.result.Completed?
      && r.store.users[session.user.id] ==
           st.users[session.user.id].(name := data.name, email := data.email)
  {
  }

  /** Which user holds the session, and what that user may do, makes no
      difference to `createUser` and `updateUser`; for `deleteUser` only
      the caller's id matters. */
  lemma UserMutationsIgnoreCaller(st: Store, a: UserSession, b: UserSession, id: UserId, update: UserUpdate, newUser: NewUser, salt: string)
    ensures UpdateUser(st, Some(a), id, update, salt) == UpdateUser(st, Some(b), id, update, salt)
    ensures id !in st.users ==> CreateUser(st, Some(a), newUser, salt, id) == CreateUser(st, Some(b), newUser, salt, id)
    ensures a.user.id == b.user.id ==> DeleteUser(st, Some(a), id) == DeleteUser(st, Some(b), id)
  {
  }

  /** Reading a user back after `updateUser` shows the new fields. */
  lemma UpdateUserThenGet(st: Store, session: UserSession, id: UserId, data: UserUpdate, salt: string)
    requires id in st.users && data.roleId in st.roles
    ensures GetUserById(UpdateUser(st, Some(session), id, data, salt).store, id)
      == Some(UserView(id, data.name, data.email, data.roleId, st.roles[data.roleId].name, data.active))
  {
  }

  /** Reading a new user back shows the given fields and the role's name. */
  lemma CreateUserThenGet(st: Store, session: UserSession, data: NewUser, salt: string, newId: UserId)
    requires newId !in st.users && data.roleId in st.roles
    ensures GetUserById(CreateUser(st, Some(session), data, salt, newId).store, newId)
      == Some(UserView(newId, data.name, data.email, data.roleId, st.roles[data.roleId].name, data.active))
  {
  }

  /** A deleted user can no longer be read back. */
  lemma DeleteUserThenGet(st: Store, session: UserSession, id: UserId)
    requires session.user.id != id
    ensures GetUserById(DeleteUser(st, Some(session), id).store, id).None?
  {
  }
}
