/** The role server actions (lib/actions/role-actions.ts). Each mutation
    checks only that a session exists; no permission is consulted, so the
    caller's identity never changes what a mutation does. */
module RoleActions {
  import opened Wrappers
  import opened Store
  import opened Auth

  const CannotDeleteSystemRole := "Cannot delete system role"

  /** `CreateRoleData` and `UpdateRoleData`. */
  datatype RoleData = RoleData(name: string, description: string, permissionIds: seq<PermissionId>)

  datatype PermissionRow = PermissionRow(id: PermissionId, name: string, description: string)

  /** What `getRoleById` returns. */
  datatype RoleView = RoleView(
    id: RoleId,
    name: string,
    description: string,
    permissions: set<PermissionRow>,
    isSystem: bool)

  /** The `role_permissions` rows the multi-row `INSERT` adds for a role. */
  function InsertedRows(roleId: RoleId, permissionIds: seq<PermissionId>): (rows: set<(RoleId, PermissionId)>)
    ensures forall rp :: rp in rows <==> rp.0 == roleId && rp.1 in permissionIds
  {
    set pid | pid in permissionIds :: (roleId, pid)
  }

  /** `DELETE FROM role_permissions WHERE role_id = $1`. */
  function WithoutRoleRows(rows: set<(RoleId, PermissionId)>, roleId: RoleId): (kept: set<(RoleId, PermissionId)>)
    ensures forall rp :: rp in kept <==> rp in rows && rp.0 != roleId
  {
    set rp | rp in rows && rp.0 != roleId
  }

  /** `getRoleById(id)`: null for a missing role; otherwise the row with the
      permissions its `role_permissions` rows join with. */
  function GetRoleById(st: Store, id: RoleId): (r: Option<RoleView>)
    ensures r.None? <==> id !in st.roles
    ensures r.Some? ==>
      && r.value.id == id
      && r.value.name == st.roles[id].name
      && r.value.description == st.roles[id].description
      && r.value.isSystem == st.roles[id].isSystem
      && forall p :: p in r.value.permissions <==>
           && (id, p.id) in st.rolePermissions
           && p.id in st.permissions
           && p.name == st.permissions[p.id].name
           && p.description == st.permissions[p.id].description
  {
    if id !in st.roles then None
    else
      var role := st.roles[id];
      var rows := set pid | pid in RolePermissionIds(st, id) && pid in st.permissions
        :: PermissionRow(pid, st.permissions[pid].name, st.permissions[pid].description);
      Some(RoleView(id, role.name, role.description, rows, role.isSystem))
  }

  /** `createRole(data)`: inserts a non-system role under the database's
      fresh id, with one `role_permissions` row per listed id. */
  function CreateRole(st: Store, session: Option<UserSession>, data: RoleData, newId: RoleId): (r: Transition)
    requires FreshRoleId(st, newId)
    ensures session.None? ==> r == RedirectToLogin(st)
    ensures session.Some? ==>
      && r.result.Completed?
      && r.store.roles.Keys == st.roles.Keys + {newId}
      && r.store.roles[newId] == Role(data.name, data.description, false)
      && (forall id :: id in st.roles ==> r.store.roles[id] == st.roles[id])
      && RolePermissionIds(r.store, newId) == Elements(data.permissionIds)
      && (forall id :: id != newId ==> RolePermissionIds(r.store, id) == RolePermissionIds(st, id))
      && r.store.users == st.users && r.store.permissions == st.permissions
  {
    if session.None? then RedirectToLogin(st)
    else
      var roles := st.roles[newId := Role(data.name, data.description, false)];
      var rows := st.rolePermissions + InsertedRows(newId, data.permissionIds);
      Transition(st.(roles := roles, rolePermissions := rows), Completed)
  }

  /** `updateRole(id, data)`: the `UPDATE` only matches a non-system role, but
      the delete-then-insert of its `role_permissions` rows runs for any id. */
  function UpdateRole(st: Store, session: Option<UserSession>, id: RoleId, data: RoleData): (r: Transition)
    ensures session.None? ==> r == RedirectToLogin(st)
    ensures session.Some? ==>
      && r.result.Completed?
      && r.store.roles.Keys == st.roles.Keys
      && (forall other :: other in st.roles && other != id ==> r.store.roles[other] == st.roles[other])
      && (id in st.roles && !st.roles[id].isSystem ==>
            r.store.roles[id] == Role(data.name, data.description, false))
      && (id in st.roles && st.roles[id].isSystem ==> r.store.roles[id] == st.roles[id])
      && RolePermissionIds(r.store, id) == Elements(data.permissionIds)
      && (forall other :: other != id ==> RolePermissionIds(r.store, other) == RolePermissionIds(st, other))
      && r.store.users == st.users && r.store.permissions == st.permissions
  {
    if session.None? then RedirectToLogin(st)
    else
      var roles :=
        if id in st.roles && !st.roles[id].isSystem
        then st.roles[id := st.roles[id].(name := data.name, description := data.description)]
        else st.roles;
      var rows := WithoutRoleRows(st.rolePermissions, id) + InsertedRows(id, data.permissionIds);
      Transition(st.(roles := roles, rolePermissions := rows), Completed)
  }

  /** `deleteRole(id)`: a missing or system role throws before anything is
      written; otherwise the role and all its `role_permissions` rows go. */
  function DeleteRole(st: Store, session: Option<UserSession>, id: RoleId): (r: Transition)
    ensures session.None? ==> r == RedirectToLogin(st)
    ensures session.Some? && (id !in st.roles || st.roles[id].isSystem) ==>
      r == Transition(st, Thrown(CannotDeleteSystemRole))
    ensures r.result.Completed? <==> session.Some? && id in st.roles && !st.roles[id].isSystem
    ensures r.result.Completed? ==>
      && r.store.roles.Keys == st.roles.Keys - {id}
      && (forall other :: other in r.store.roles ==> r.store.roles[other] == st.roles[other])
      && RolePermissionIds(r.store, id) == {}
      && (forall other :: other != id ==> RolePermissionIds(r.store, other) == RolePermissionIds(st, other))
      && r.store.users == st.users && r.store.permissions == st.permissions
  {
    if session.None? then RedirectToLogin(st)
    else if id !in st.roles || st.roles[id].isSystem then Transition(st, Thrown(CannotDeleteSystemRole))
    else Transition(st.(roles := st.roles - {id}, rolePermissions := WithoutRoleRows(st.rolePermissions, id)), Completed)
  }

  /** A system role keeps its name and description through `updateRole`,
      yet its permission set is still replaced by the given list. */
  lemma UpdateSystemRoleReplacesPermissions(st: Store, session: UserSession, id: RoleId, data: RoleData)
    requires id in st.roles && st.roles[id].isSystem
    ensures var r := UpdateRole(st, Some(session), id, data);
      && r.store.roles[id] == st.roles[id]
      && RolePermissionIds(r.store, id) == Elements(data.permissionIds)
  {
  }

  /** Which user holds the session, and what that user may do, makes no
      difference to any role mutation. */
  lemma RoleMutationsIgnoreCaller(st: Store, a: UserSession, b: UserSession, id: RoleId, data: RoleData)
    ensures UpdateRole(st, Some(a), id, data) == UpdateRole(st, Some(b), id, data)
    ensures DeleteRole(st, Some(a), id) == DeleteRole(st, Some(b), id)
    ensures FreshRoleId(st, id) ==> CreateRole(st, Some(a), data, id) == CreateRole(st, Some(b), data, id)
  {
  }

  /** Reading a role back after `updateRole` shows exactly the listed
      permissions that exist (an empty list leaves it with none). */
  lemma UpdateRoleThenGet(st: Store, session: UserSession, id: RoleId, data: RoleData)
    requires id in st.roles
    ensures var view := GetRoleById(UpdateRole(st, Some(session), id, data).store, id);
      && view.Some?
      && (forall p :: p in view.value.permissions ==> p.id in data.permissionIds)
      && (forall pid :: pid in data.permissionIds && pid in st.permissions ==>
            PermissionRow(pid, st.permissions[pid].name, st.permissions[pid].description) in view.value.permissions)
  {
  }

  /** Reading a new role back shows a non-system role with exactly the
      listed permissions that exist. */
  lemma CreateRoleThenGet(st: Store, session: UserSession, data: RoleData, newId: RoleId)
    requires FreshRoleId(st, newId)
    ensures var view := GetRoleById(CreateRole(st, Some(session), data, newId).store, newId);
      && view.Some?
      && view.value.name == data.name && !view.value.isSystem
      && (forall p :: p in view.value.permissions <==>
            p.id in data.permissionIds && p.id in st.permissions
            && p == PermissionRow(p.id, st.permissions[p.id].name, st.permissions[p.id].description))
  {
  }

  /** A deleted role can no longer be read back. */
  lemma DeleteRoleThenGet(st: Store, session: UserSession, id: RoleId)
    requires DeleteRole(st, Some(session), id).result.Completed?
    ensures GetRoleById(DeleteRole(st, Some(session), id).store, id).None?
  {
  }
}
