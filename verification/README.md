# RBAC admin panel: authorization core in Dafny

This project models the authorization core of a Next.js role-based access
control admin panel. The panel keeps users, roles, permissions and
role–permission assignments in a relational store. On top of that store sit:

- **permission resolution**: `hasPermission` and `getUserPermissions`, which follow
  user → role → role_permissions → permission and keep only active users;
- **sessions**: `createSession` signs a 24-hour snapshot of the user and role,
  and `getSession` verifies it;
- **login and registration**: decision trees that answer `{ success, error }`;
- **role and user server actions**: mutations guarded only by "a session exists",
  plus the self-delete check and the system-role checks;
- **`GET /api/permissions`**: answers 401 without a session, and otherwise the
  caller's live permission names.

The store is an immutable datatype (`Store.Store`): maps for `users`, `roles` and
`permissions`, and a set of pairs for `role_permissions`. Every action is a pure
function of the store. The role and user actions return a `Transition`, which
holds the next store and how the action ended: completed, redirected to
`/login`, or an `Error` thrown with its message. `login` and `register` return
their own outcome records: the `{ success, error }` answer, plus the cookie
that `login` sets or the store that `register` leaves. Outside inputs are parameters:

- the current time (`nowMs`, what `Date.now()` returns);
- bcrypt's random salt;
- the database's fresh id for an inserted row;
- the signing secret;
- the cookie's token, or the `getSession()` result an action sees.

bcrypt is an ideal salted one-way function of the 72 bytes its key schedule
reads. These bytes are the password's UTF-8 encoding followed by one zero byte,
repeated cyclically. A hash verifies exactly the passwords that give the same
72 bytes. Two NUL-free passwords of at most 72 UTF-8 bytes share a key only when
they are equal (`Passwords.ShortPasswordsAreDistinguished`). The hash of a
NUL-free password shorter than 72 bytes verifies no other NUL-free password, of
any length (`Passwords.ShortPasswordHasNoTwin`). A 72-byte password's hash also
accepts every longer password beginning with it. In general, passwords that
share their first 72 bytes are interchangeable (`Passwords.LongPasswordsShareKey`). `compare` answers false for a stored value
whose length is not 60. A 60-character value raises when its first 29
characters are not a salt bcrypt accepts (`Passwords.Unparseable`). A
60-character value with an accepted salt and a digest no password produces is a
`Bcrypt` hash that no password verifies. `verifyPassword` turns the exception
into false.

The HS256 signer is an ideal MAC: a token verifies under a key exactly when it
was signed with that key over those claims.

Modules follow the source files:

- `Passwords` and `Auth` model lib/auth.ts.
- `Permissions` models lib/permissions.ts.
- `AuthActions`, `RoleActions` and `UserActions` model lib/actions/.
- `PermissionsRoute` models app/api/permissions/route.ts.
- `Scenarios` holds properties that span several files.

Behaviour of the code worth knowing:

- The role and user actions that mutate check only that a session exists. They never call
  `hasPermission`. Permission checks exist only in the pages, which are not modelled.
- `deleteRole` refuses a system role, and `updateRole` keeps a system role's name
  and description. Yet `updateRole` still replaces that role's permission set
  (`RoleActions.UpdateSystemRoleReplacesPermissions`).
- `deleteRole` reports a missing role with the same message as a system role:
  "Cannot delete system role".
- `register` looks up the default role by the name `User`. With no such role it
  fails with "Default role not found" and inserts nothing.
- `updateProfile` does not check the active flag, so an inactive user with a live
  session can still edit their own name and email.
- The role snapshot inside a token can go stale. Authorization never reads it:
  `GET /api/permissions` resolves permissions from the live store through the
  session's user id.

## Model

| member | source | states |
|---|---|---|
| Passwords.Compare | lib/auth.ts:84 | `bcrypt.compare` raises only for a 60-character stored value whose salt bcrypt does not accept, answers false for a value of any other length, and on a hash answers true exactly when hashing the password with the stored salt reproduces it |
| Passwords.HashPassword | lib/auth.ts:91-93 | the hash records the drawn salt; what it verifies is given by `Passwords.VerifyHashedPassword` |
| Passwords.VerifyPassword | lib/auth.ts:82-89 | the answer is true exactly when bcrypt's comparison succeeded with a match; a stored value that is not a hash gives false, and an exception becomes false |
| Passwords.VerifyHashedPassword | lib/auth.ts:82-93 | a hash made by `hashPassword` verifies exactly the passwords whose 72-byte bcrypt keys equal the hashed password's, whatever salt was drawn |
| Passwords.ShortPasswordsAreDistinguished | lib/auth.ts:82-93 | two NUL-free passwords of at most 72 UTF-8 bytes have the same bcrypt key exactly when they are equal; a 72-byte password still shares its key with longer passwords beginning with it |
| Passwords.ShortPasswordHasNoTwin | lib/auth.ts:82-93 | a NUL-free password shorter than 72 UTF-8 bytes shares its bcrypt key with no other NUL-free password of any length, so its hash verifies it alone among them |
| Passwords.LongPasswordsShareKey | lib/auth.ts:82-93 | two passwords whose UTF-8 encodings share their first 72 bytes have the same bcrypt key, so each verifies against the other's hash |
| Passwords.Utf8Injective | lib/auth.ts:91-93 | two strings with the same UTF-8 encoding, the bytes bcryptjs hashes, are equal |
| Store.UserIdByEmail | lib/actions/auth-actions.ts:11-15 | the email lookup finds no user exactly when no row has that email, and otherwise a row whose email it is |
| Store.RoleIdByName | lib/actions/auth-actions.ts:62 | the role lookup by name finds nothing exactly when no role has that name, and otherwise a role with that name |
| Auth.SigningKey | lib/auth.ts:6 | the signing key is never empty; a non-empty `JWT_SECRET` is used as given, and an unset or empty one gives the fixed fallback string |
| Auth.DefaultSecretForgesSessions | lib/auth.ts:6-34 | with `JWT_SECRET` unset or empty, claims of anyone's choosing signed with the fallback string are accepted by `getSession` until their `exp` |
| Auth.ConfiguredSigningKey | lib/auth.ts:6 | the key without a fallback exists exactly when `JWT_SECRET` is non-empty, and is then the key the code uses |
| Auth.GetSessionWithConfiguredKey | lib/auth.ts:6-34 | with no configured secret no cookie gives a session; otherwise it answers as `getSession` does, so a session comes only from a token signed with the configured secret |
| Auth.ConfiguredKeyRejectsDefaultSecret | lib/auth.ts:6-34 | without the fallback, a token signed with the public fallback string is rejected unless that string was configured |
| Auth.Sign | lib/auth.ts:73-77 | a signed token carries exactly the claims it was signed over |
| Auth.EpochSeconds | lib/auth.ts:69 | the seconds value is the floor of milliseconds / 1000 (bounded above and below by the millisecond time) |
| Auth.JwtVerify | lib/auth.ts:28 | verification succeeds exactly for a token signed with this key over its claims whose `exp` is after the current second, and then yields those claims |
| Auth.GetSession | lib/auth.ts:21-34 | no cookie gives no session; a session comes back exactly when the token verifies, and then it is the signed payload and is not yet expired; failures give null, never an error |
| Auth.CreateSession | lib/auth.ts:36-80 | succeeds exactly for an existing, active user whose role row exists, and otherwise fails with "User not found or inactive"; the signed payload carries the store's id, name, email, role id and role name, and expires at floor(now/1000) + 86400 |
| Auth.SessionRoundTrip | lib/auth.ts:59-77 | a token from `createSession` reads back through `getSession` as its own payload, carrying the issuing user's id, until its expiry second |
| Auth.SessionExpires | lib/auth.ts:69-76 | from the expiry second on, the same token yields no session |
| Auth.SessionNeedsSigningKey | lib/auth.ts:27-33 | a token never verifies under a key other than the one that signed it |
| Permissions.HasPermission | lib/permissions.ts:3-21 | an undefined or empty user id is denied whatever the name; a grant needs an existing, active user with an existing role; a name that no permission has is always denied |
| Permissions.HasPermissionMatchesEffective | lib/permissions.ts:3-38 | for a defined user id, `hasPermission` holds exactly for the names in the user's effective permission set (the user → role → role_permissions → permission join) |
| Permissions.InactiveUserHasNoPermissions | lib/permissions.ts:14-31 | an inactive user is denied every permission and has an empty permission set, whatever its role grants |
| Permissions.GetUserPermissions | lib/permissions.ts:23-38 | the returned list holds exactly the user's effective permission names (so it is empty for a missing or inactive user or an empty role), and repeats none when permission names are unique |
| AuthActions.Login | lib/actions/auth-actions.ts:8-47 | an unknown email gives "Invalid email or password"; success happens exactly when the user exists, is active, the password verifies and the role row exists, and then the cookie is set to the session created for that user; every failure sets no cookie; an active user whose password verifies but whose role row is missing makes `createSession` raise, and gets "An error occurred during login" with no cookie; an exception in the `try` block gives that generic failure, never success |
| AuthActions.LoginInactiveIgnoresPassword | lib/actions/auth-actions.ts:22-27 | an inactive account is answered "Your account is inactive" whatever password is given |
| AuthActions.LoginDoesNotEnumerate | lib/actions/auth-actions.ts:17-30 | a wrong password for an active account gets exactly the same answer as an email that no user has |
| AuthActions.LoginIssuesSessionForUser | lib/actions/auth-actions.ts:32-42 | after a successful login the cookie's token reads back as a session for the user owning the email, carrying that user's live role name |
| AuthActions.Register | lib/actions/auth-actions.ts:49-83 | an email in use fails with "Email already in use", and a missing `User` role fails with "Default role not found", both leaving the store unchanged; success adds exactly one new, active user in the `User` role, with a hash of the given password, and changes nothing else |
| AuthActions.RegisterKeepsEmailsUnique | lib/actions/auth-actions.ts:52-76 | registration keeps emails unique across users |
| AuthActions.RegisterThenLogin | lib/actions/auth-actions.ts:8-83 | registering and then logging in with the same credentials yields a session for the new user whose role name is `User` |
| RoleActions.GetRoleById | lib/actions/role-actions.ts:46-78 | null exactly for a missing role; otherwise the role's fields and exactly the permissions its role_permissions rows join with |
| RoleActions.CreateRole | lib/actions/role-actions.ts:94-126 | with no session, redirect to /login and no change; otherwise one new non-system role whose permission ids are exactly the given ones, with every other role, its rows, users and permissions untouched |
| RoleActions.UpdateRole | lib/actions/role-actions.ts:134-165 | with no session, redirect and no change; otherwise a non-system role takes the new name and description, a system role keeps its own, and the role's permission ids become exactly the given ones (none for an empty list) while every other role's rows stay as they were |
| RoleActions.DeleteRole | lib/actions/role-actions.ts:167-185 | with no session, redirect and no change; a missing or system role throws "Cannot delete system role" and changes nothing; otherwise exactly that role and all its role_permissions rows are removed and nothing else changes |
| RoleActions.UpdateSystemRoleReplacesPermissions | lib/actions/role-actions.ts:139-162 | updating a system role leaves its name and description but replaces its permission set with the given ids |
| RoleActions.RoleMutationsIgnoreCaller | lib/actions/role-actions.ts:94-185 | the outcome of every role mutation is the same whichever user holds the session: no permission is checked |
| RoleActions.UpdateRoleThenGet | lib/actions/role-actions.ts:139-162 | reading a role back after an update shows only listed permissions and every listed permission that exists |
| RoleActions.CreateRoleThenGet | lib/actions/role-actions.ts:94-126 | reading a newly created role back shows a non-system role with the given name and exactly the listed permissions that exist |
| RoleActions.DeleteRoleThenGet | lib/actions/role-actions.ts:179-182 | after a successful delete the role can no longer be read back |
| UserActions.GetUserById | lib/actions/user-actions.ts:36-67 | null exactly when the user or its role row is missing; otherwise the user's fields with its role's name, and no password hash |
| UserActions.CreateUser | lib/actions/user-actions.ts:84-100 | with no session, redirect and no change; otherwise exactly one new user with the given fields, whose hash verifies exactly the passwords bcrypt cannot tell from the given one, and no other table changes |
| UserActions.CreateUserThenGet | lib/actions/user-actions.ts:84-100 | reading a new user back shows the given name, email, role (with its name) and active flag |
| UserActions.UpdateUser | lib/actions/user-actions.ts:110-138 | with no session, redirect and no change; otherwise only the target row changes: name, email, role and active flag are set, and a truthy new password replaces the hash with one that verifies exactly the passwords bcrypt cannot tell from it, or else the hash is kept |
| UserActions.DeleteUser | lib/actions/user-actions.ts:140-151 | with no session, redirect and no change; the caller's own id throws "Cannot delete your own account" and changes nothing; any other id removes only that user |
| UserActions.UpdateProfile | lib/actions/user-actions.ts:160-200 | with no session, redirect and no change; only the session user's row changes, never its role or active flag; an edit without both passwords truthy always completes; the hash changes only when both passwords are truthy and the current one verifies, and then verifies exactly the passwords bcrypt cannot tell from the new one; a wrong current password throws "Current password is incorrect" and changes nothing |
| UserActions.ProfileNewPasswordWithoutCurrentIsIgnored | lib/actions/user-actions.ts:165-196 | a new password with no current password silently updates only the name and email |
| UserActions.UserMutationsIgnoreCaller | lib/actions/user-actions.ts:84-151 | create and update do the same whichever user holds the session; delete depends only on the caller's id |
| UserActions.UpdateUserThenGet | lib/actions/user-actions.ts:126-135 | reading a user back after an update shows the new name, email, role (with its name) and active flag |
| UserActions.DeleteUserThenGet | lib/actions/user-actions.ts:145-149 | after deleting another user, that user can no longer be read back |
| PermissionsRoute.Get | app/api/permissions/route.ts:5-15 | no session gives 401 with `{ error: "Unauthorized" }` and only then; with a session the answer is 200 with exactly the effective permission names of the session's user id, without repeats when names are unique |
| Scenarios.DeactivatedUserKeepsSessionButLosesPermissions | app/api/permissions/route.ts:6-14 | after an administrator deactivates a user, that user's unexpired token still verifies, but the user's permission set is empty and every permission check fails |
| Scenarios.RoleChangeIsSeenLiveNotInToken | lib/permissions.ts:23-37 | after a user is moved to another role, permissions come from the new role at once, while an earlier token still names the old role |
| Scenarios.ProfilePasswordChangeThenLogin | lib/actions/user-actions.ts:165-187 | after a profile change that verified the current password, login with the new email and new password succeeds for an active user; another password succeeds exactly when bcrypt cannot tell it from the new one, and otherwise gets "Invalid email or password" |
| Scenarios.EmptyRoleGrantsNothing | lib/actions/role-actions.ts:99-123 | a user assigned to a role created with an empty permission list holds no permission, `manage_users` included |

## Left out

- React components, pages and the dashboard layout are not modelled. The page guards only call `hasPermission` and redirect.
- The listing queries (`getRoles`, `getAllPermissions`, `getUsers`, and `getRoles` in user-actions) and their `ORDER BY` are not modelled. They are read-only projections of the store.
- `logout` is not modelled. It only deletes the cookie and redirects.
- Cookie attributes, `revalidatePath` and the `iat` claim that `setIssuedAt` adds are transport details, so they are left out. `setExpirationTime("24h")` is taken to read the same clock as the payload's `exp`.
- `getRoleById` returns its permissions `ORDER BY p.name`. The model returns them as a set, so the order is not modelled.
- The `console.error` logging in `getSession`, `verifyPassword`, `login` and `register` is not modelled. It has no effect on any answer.
- bcrypt's cost, salt format and digest, and the jose/HMAC-SHA256 internals, are replaced by the ideal hash and signer described above. The 72-byte key that bcrypt reads is modelled.
- A JavaScript string can hold a lone UTF-16 surrogate, but a Dafny string cannot. So the model does not cover how bcryptjs encodes such a password.
- Passwords.ShortPasswordsAreDistinguished: covers only passwords without a NUL character. After a NUL, the cyclic key can repeat, so `p` and `p` + NUL + `p` share a key. The model does not prove this case.
- Database constraint failures are not modelled: unique email, unique role name, foreign keys, and duplicate role_permissions keys. In the real database, these make an insert or update throw. Examples: `updateRole` on a missing id with a non-empty list; `createRole` with unknown permission ids; `deleteRole` on a role that users still reference, where the rows are already deleted when the role delete fails.
- `updateRole`'s delete-then-insert has no transaction. Each action is modelled as one sequential transition, with no interleaving or failure between statements.
- `register`'s `catch` branch is not modelled. Its steps raise only on store failures, and those are not modelled. `Login` models its `catch` branch through `createSession` failing.
- `createRole`'s "Failed to create role" branch is not modelled. An insert with `RETURNING` always yields a row in the model.
- Store.UserIdByEmail: requires unique emails, the schema's constraint. `queryOne` would pick the first of several rows, and the model does not decide which. `Login` inherits this requirement.
- Store.RoleIdByName: requires unique role names, for the same reason. `Register` inherits this requirement.
- Permissions.GetUserPermissions: the list's order is the store's scan order, which the model leaves unspecified, like `ARRAY_AGG` without `ORDER BY`.
- AuthActions.Register: requires the new user's id to be fresh. The database generates this id.
- UserActions.CreateUser: requires the new user's id to be fresh, as for `Register`.
- RoleActions.CreateRole: requires the new role's id to be fresh, with no role_permissions rows yet. The database generates this id.

## Findings

| source | as written | input that shows it | evidently intended | confidence | as-written member | corrected member |
|---|---|---|---|---|---|---|
| lib/auth.ts:6 | with `JWT_SECRET` unset or empty, tokens are signed and verified with the fixed string "your-secret-key-at-least-32-characters" | `JWT_SECRET` unset, and a cookie holding claims for any user id with a future `exp`, signed with that string: `getSession` returns those claims | the string is a placeholder asking to be replaced; sessions should not be issued or accepted until a secret is configured | medium; not executed | Auth.DefaultSecretForgesSessions | Auth.GetSessionWithConfiguredKey |

The session functions take the key as a parameter. `Auth.GetSessionWithConfiguredKey`
feeds them the key without a fallback, and `Auth.ConfiguredKeyRejectsDefaultSecret`
proves that it rejects the forged token.
