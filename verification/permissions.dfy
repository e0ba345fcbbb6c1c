/** Permission resolution (lib/permissions.ts): both queries follow
    users -> roles -> role_permissions -> permissions and keep only active
    users. `EffectivePermissions` is the join written as a set; the two
    operations are checked against it. */
module Permissions {
  import opened Wrappers
  import opened Store

  /** The names of the permissions that the rows in `rows` grant to `roleId`
      (rows naming a missing permission join with nothing). */
  function GrantedNames(st: Store, roleId: RoleId, rows: set<(RoleId, PermissionId)>): set<string> {
    set rp | rp in rows && rp.0 == roleId && rp.1 in st.permissions :: st.permissions[rp.1].name
  }

  /** The join of lib/permissions.ts: the permission names reachable from an
      active user through its role; empty for a missing or inactive user and
      for a user whose role row is missing. */
  function EffectivePermissions(st: Store, userId: UserId): set<string> {
    if userId in st.users && st.users[userId].active && st.users[userId].roleId in st.roles then
      GrantedNames(st, st.users[userId].roleId, st.rolePermissions)
    else
      {}
  }

  /** `hasPermission(userId, permissionName)`: false straight away for an
      undefined or empty id, otherwise the `EXISTS` query; a query with no
      row gives false, so an unknown name is denied rather than an error. */
  function HasPermission(st: Store, userId: Option<UserId>, permissionName: string): (granted: bool)
    ensures !Truthy(userId) ==> !granted
    ensures granted ==>
      var u := userId.value;
      && u in st.users && st.users[u].active && st.users[u].roleId in st.roles
      && exists pid :: pid in st.permissions && st.permissions[pid].name == permissionName
    ensures (forall pid :: pid in st.permissions ==> st.permissions[pid].name != permissionName) ==> !granted
  {
    if !Truthy(userId) then false
    else
      var u := userId.value;
      && u in st.users
      && st.users[u].active
      && st.users[u].roleId in st.roles
      && exists pid ::
           (st.users[u].roleId, pid) in st.rolePermissions && pid in st.permissions
           && st.permissions[pid].name == permissionName
  }

  /** For a defined id, `hasPermission` holds exactly for the names in the
      user's effective permission set. */
  lemma HasPermissionMatchesEffective(st: Store, userId: UserId, permissionName: string)
    requires userId != ""
    ensures HasPermission(st, Some(userId), permissionName) <==> permissionName in EffectivePermissions(st, userId)
  {
  }

  /** An inactive user holds no permission through either query, whatever
      its role grants. */
  lemma InactiveUserHasNoPermissions(st: Store, userId: UserId, permissionName: string)
    requires userId in st.users && !st.users[userId].active
    ensures !HasPermission(st, Some(userId), permissionName)
    ensures EffectivePermissions(st, userId) == {}
  {
  }

  predicate NoDuplicates<T(==)>(s: seq<T>) {
    forall i, j :: 0 <= i < j < |s| ==> s[i] != s[j]
  }

  /** With unique permission names, a row not yet scanned grants a name that
      no scanned row of the same role granted. */
  lemma UnscannedRowAddsNewName(st: Store, roleId: RoleId, scanned: set<(RoleId, PermissionId)>, row: (RoleId, PermissionId))
    requires UniquePermissionNames(st)
    requires row !in scanned && row.0 == roleId && row.1 in st.permissions
    ensures st.permissions[row.1].name !in GrantedNames(st, roleId, scanned)
  {
  }

  /** `getUserPermissions(userId)`: `ARRAY_AGG` over the joined rows, taken
      in whatever order the store scans `role_permissions`; `[]` when the
      join has no row. With unique permission names the list repeats no
      name. */
  method GetUserPermissions(st: Store, userId: UserId) returns (names: seq<string>)
    ensures forall n :: n in names <==> n in EffectivePermissions(st, userId)
    ensures UniquePermissionNames(st) ==> NoDuplicates(names)
  {
    names := [];
    if userId !in st.users || !st.users[userId].active || st.users[userId].roleId !in st.roles {
      return;
    }
    var roleId := st.users[userId].roleId;
    var rows := st.rolePermissions;
    ghost var scanned: set<(RoleId, PermissionId)> := {};
    while rows != {}
      invariant rows !! scanned && rows + scanned == st.rolePermissions
      invariant forall n :: n in names <==> n in GrantedNames(st, roleId, scanned)
      invariant UniquePermissionNames(st) ==> NoDuplicates(names)
      decreases rows
    {
      var row :| row in rows;
      if row.0 == roleId && row.1 in st.permissions {
        var name := st.permissions[row.1].name;
        if UniquePermissionNames(st) {
          UnscannedRowAddsNewName(st, roleId, scanned, row);
        }
        names := names + [name];
      }
      rows := rows - {row};
      scanned := scanned + {row};
    }
  }
}
