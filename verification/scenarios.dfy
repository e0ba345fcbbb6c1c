/** Properties that span several source files: sessions against later
    changes to the store, and role/user actions against permission checks. */
module Scenarios {
  import opened Wrappers
  import opened Store
  import opened Auth
  import opened Permissions
  import opened RoleActions
  import opened UserActions
  import opened AuthActions
  import opened Passwords

  /** A session issued to a user stays valid after an administrator
      deactivates that user, but from then on the user holds no permission:
      the check goes through the live store, not through the token. */
  lemma DeactivatedUserKeepsSessionButLosesPermissions(
    st: Store, userId: UserId, key: string, issuedMs: int, nowMs: int,
    admin: UserSession, update: UserUpdate, salt: string, permissionName: string)
    requires CreateSession(st, userId, key, issuedMs).Success?
    requires EpochSeconds(nowMs) < EpochSeconds(issuedMs) + SessionLifetime
    requires !update.active
    ensures var token := CreateSession(st, userId, key, issuedMs).value;
      var after := UpdateUser(st, Some(admin), userId, update, salt).store;
      && GetSession(Some(token), key, nowMs) == Some(token.claims)
      && EffectivePermissions(after, userId) == {}
      && !HasPermission(after, Some(token.claims.user.id), permissionName)
  {
  }

  /** Moving a user to another role changes its permissions at once, while
      the role named in a session issued before the move stays the old one. */
  lemma RoleChangeIsSeenLiveNotInToken(
    st: Store, userId: UserId, key: string, issuedMs: int,
    admin: UserSession, update: UserUpdate, salt: string)
    requires CreateSession(st, userId, key, issuedMs).Success?
    requires update.active && update.roleId in st.roles
    ensures var token := CreateSession(st, userId, key, issuedMs).value;
      var after := UpdateUser(st, Some(admin), userId, update, salt).store;
      && token.claims.user.role.id == st.users[userId].roleId
      && EffectivePermissions(after, userId) == GrantedNames(st, update.roleId, st.rolePermissions)
  {
  }

  /** A role created with no permissions grants nothing: a user put in it
      holds no permission, `manage_users` included. */
  lemma EmptyRoleGrantsNothing(
    st: Store, admin: UserSession, roleId: RoleId, description: string,
    userId: UserId, name: string, email: string, password: string, salt: string, permissionName: string)
    requires FreshRoleId(st, roleId)
    requires userId !in st.users
    ensures var withRole := CreateRole(st, Some(admin), RoleData("Auditor", description, []), roleId).store;
      var withUser := CreateUser(withRole, Some(admin), NewUser(name, email, password, roleId, true), salt, userId).store;
      && userId in withUser.users && withUser.users[userId].active
      && !HasPermission(withUser, Some(userId), permissionName)
  {
  }

  /** After a profile change that verified the current password, logging in
      with the new email and the new password succeeds for an active user,
      and any other password works only if bcrypt cannot tell it from the
      new one (never, when both are free of NUL and the new one is shorter than 72 bytes). */
  lemma ProfilePasswordChangeThenLogin(
    st: Store, session: UserSession, data: ProfileUpdate, salt: string,
    attempt: string, key: string, nowMs: int)
    requires session.user.id in st.users
    requires st.users[session.user.id].active && st.users[session.user.id].roleId in st.roles
    requires Truthy(data.newPassword) && Truthy(data.currentPassword)
    requires VerifyPassword(data.currentPassword.value, st.users[session.user.id].passwordHash)
    requires UniqueEmails(UpdateProfile(st, Some(session), data, salt).store)
    ensures var after := UpdateProfile(st, Some(session), data, salt).store;
      && Login(after, data.email, data.newPassword.value, key, nowMs).result.Succeeded?
      && (BcryptEquivalent(attempt, data.newPassword.value) <==>
            Login(after, data.email, attempt, key, nowMs).result.Succeeded?)
      && (!BcryptEquivalent(attempt, data.newPassword.value) ==>
            Login(after, data.email, attempt, key, nowMs) == LoginOutcome(Failed(InvalidCredentials), None))
  {
  }
}
