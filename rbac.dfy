/** The records the admin screens keep in memory, the remote calls they issue and the
    outcomes those calls can have. The remote store is a REST collection per entity; a call is
    modelled by the request it sends, and its asynchronous answer by an `Outcome` that the
    handler receives as a parameter. */
module Rbac {

  /** The identifier the remote store assigns to a role or user; opaque to the screens. */
  type Id = int

  datatype Option<T> = None | Some(value: T)

  /** What a remote call resolves to: the response body on success, or a rejection. */
  datatype Outcome<T> = Ok(payload: T) | Fail

  /** A role as the remote store returns it: the permission list may be missing. */
  datatype RoleRecord = RoleRecord(id: Id, name: string, permissions: Option<seq<string>>)

  /** A role after load-time normalisation: the permission list is always present. */
  datatype Role = Role(id: Id, name: string, permissions: seq<string>)

  /** The "Add New Role" form. */
  datatype RoleForm = RoleForm(name: string, permissions: seq<string>)

  datatype User = User(id: Id, name: string, email: string, role: string, status: string)

  /** The user modal's form: exactly the four editable fields of a user. */
  datatype UserForm = UserForm(name: string, email: string, role: string, status: string)

  /** One call to the remote store, with the body it carries. */
  datatype Request =
    | PostPermission(permissionName: string)
    | DeletePermission(permissionName: string)
    | PostRole(roleForm: RoleForm)
    | PutRole(roleId: Id, role: Role)
    | PutRoleName(roleId: Id, newName: string)
    | DeleteRole(roleId: Id)
    | PostUser(userForm: UserForm)
    | PutUser(userId: Id, userForm: UserForm)
    | DeleteUser(userId: Id)

  const EmptyRoleForm: RoleForm := RoleForm("", [])
  const EmptyUserForm: UserForm := UserForm("", "", "", "")
}
