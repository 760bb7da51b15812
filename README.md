# RBAC admin screens: a verified model of their state transitions

This project models the logic of a browser admin surface for role-based access control. Three
screens each keep a list in memory and sync it with a REST store:

- the **permission matrix** (`Permissions.js`) holds a permission catalog and the roles, with one
  checkbox per (role, permission);
- the **role list** (`Roles.js`) adds, renames and deletes roles, and has a form with its own
  permission checkboxes;
- the **user list** (`Users.js`) adds, edits and deletes users through a modal.

Every screen is a Dafny `class` whose fields are the component's state variables. Each handler is
a `method` that updates those fields. It returns the remote requests it issues (`Rbac.Request`)
and an `alerted` flag for the blocking alert. The list updates themselves (`map`/`filter`/spread)
are pure functions. Lemmas about those functions state what each update preserves.

The two sync styles in the source are modelled as written:

- **Optimistic (the matrix).** Local state changes first, then the request is sent and its answer
  is ignored. So the matrix handlers take no outcome parameter, and a failed call cannot undo
  anything.
- **Confirmed (the role and user lists).** The handler receives the call's `Outcome` (`Ok(payload)`
  or `Fail`) as a parameter. Its list changes only on `Ok`.

Files:

- `lists.dfy` (module `Lists`): JavaScript's `filter` and the "append if absent, filter out if
  present" toggle. It also proves facts about them: order is kept (`Subseq`), counts are kept
  (multisets), `Filter` is unique with those properties, and duplicate-freedom carries over.
- `rbac.dfy` (module `Rbac`): the records, the requests and the outcomes.
- `permissions.dfy`, `roles.dfy`, `users.dfy`: one module per screen.

Behaviours of the code the model keeps:

- Deleting a permission sends a PUT for **every** role, changed or not.
- On the role list, rename and delete change local state **only on success**. There is no
  optimistic update and no rollback.
- The matrix protects roles named exactly `"User"` and `"Admin"`. The role list protects
  lower-case `"admin"` and `"user"`, and only by disabling the Edit and Delete buttons. These are
  two separate guards (`Permissions.IsProtected`, `Roles.ActionsEnabled`) with their exact
  casing. A role named `"Admin"` can therefore be renamed and deleted on the role list.
- Deleting a permission also removes it from protected roles. The cascade does not exempt them.
- Toggling a role id that is not in the list dereferences `undefined` in the source.
- The matrix's guard looks only at the **first** role with the id (`find`). The update then
  flips the permission on **every** role with that id (`map`). The model does exactly this.
- The permission catalog starts as the constant `["Read", "Write", "Delete", "Update"]`. It is
  never fetched.

## Model

| member | source | states |
|---|---|---|
| `Lists.Filter` | src/components/Users.js:80 | `filter` keeps exactly the elements that pass the test and never lengthens the list; the same filter serves Permissions.js:76 and :85-87 and Roles.js:52 |
| `Lists.Toggle` | src/components/Permissions.js:46-48 | the toggled element is present afterwards exactly when it was absent before; every other element's membership is unchanged |
| `Lists.Without` | src/components/Permissions.js:76 | the removed name is absent afterwards; every other name's membership is unchanged |
| `Lists.WithoutKeepsOthers` | src/components/Permissions.js:85-87 | removing a name keeps every other element, in order and with its count |
| `Lists.WithoutAbsent` | src/components/Permissions.js:76 | removing a name that is absent changes nothing |
| `Lists.WithoutNoDup` | src/components/Permissions.js:76 | removing a name keeps a duplicate-free catalog duplicate-free |
| `Lists.ToggleTwiceAbsent` | src/components/Roles.js:90-92 | an absent element is appended at the end, and toggling it twice restores the exact list |
| `Lists.TogglePresentTwice` | src/components/Permissions.js:46-48 | toggling a present element twice restores membership and moves the element to the end, after the others in their original order |
| `Lists.FilterUnique` | src/components/Users.js:80 | `filter`'s result is the only subsequence containing exactly the kept elements with their counts |
| `Permissions.IsProtected` | src/components/Permissions.js:40 | only a role named exactly "User" or "Admin" is protected by the matrix; the lower-case "user" and "admin" are not |
| `Permissions.Normalize` | src/components/Permissions.js:27-30 | every loaded role gets a list: a missing one becomes empty, a present one is kept verbatim; ids, names and the role count are kept |
| `Permissions.NormalizeRoundTrip` | src/components/Permissions.js:27-30 | normalisation loses nothing when every record has a list, and it inverts the role-to-record view |
| `Permissions.FirstIndex` | src/components/Permissions.js:39 | `find` returns the first role with the id: it matches, and no earlier role does |
| `Permissions.ToggleRoles` | src/components/Permissions.js:44-52 | roles with another id are unchanged; every role keeps its id and name; the role count is kept |
| `Permissions.ToggleRolesEffect` | src/components/Permissions.js:44-52 | on the toggled role, an absent permission is appended at the end; a present one loses every copy while the others keep their order and counts |
| `Permissions.ToggleRolesTwice` | src/components/Permissions.js:46-48 | two toggles restore the exact list for roles that lacked the permission and the membership for the others; if every role with the id lacked it, the whole role list is restored |
| `Permissions.ToggleMatrix` | src/components/Permissions.js:39-42 | when the first role with the id is named exactly "User" or "Admin", the role list is unchanged |
| `Permissions.ToggleMatrixKeepsProtected` | src/components/Permissions.js:39-52 | with unique ids, no toggle changes a role named "User" or "Admin", and no toggle renames any role |
| `Permissions.Cascade` | src/components/Permissions.js:84-89 | the cascade keeps the role count and every role's id and name |
| `Permissions.CascadeEffect` | src/components/Permissions.js:84-89 | after the cascade, no role holds the deleted permission, protected roles included; other permissions keep their order and counts; a role that lacked it is unchanged |
| `Permissions.AddToCatalog` | src/components/Permissions.js:61 | a name is accepted exactly when it is non-empty and not yet in the catalog |
| `Permissions.AddToCatalogOnce` | src/components/Permissions.js:61-62 | an accepted name is appended at the end and occurs exactly once; a duplicate-free catalog stays duplicate-free; adding the name again is rejected |
| `Permissions.DeleteFromCatalog` | src/components/Permissions.js:76 | the deleted name is gone; the other entries keep their order; an absent name is a no-op; the catalog stays duplicate-free |
| `Permissions.ConsistencyPreserved` | src/components/Permissions.js:44-89 | "every role permission is in the catalog" survives a toggle of a catalog entry, an addition, and a deletion with its cascade |
| `Permissions.ExampleMatrix` | src/components/Permissions.js:38-100 | worked example: toggling "Write" on role 1 ("Editor") appends it; toggling role 2 ("Admin") is refused; deleting "Write" removes it from the catalog and from both roles |
| `Permissions.PutEach` | src/components/Permissions.js:93-99 | exactly one PUT per role, in list order, each for that role's id and carrying that role |
| `Permissions.PermissionsView.constructor` | src/components/Permissions.js:19-21 | no roles, the four-entry initial catalog, an empty new-permission field |
| `Permissions.PermissionsView.LoadRoles` | src/components/Permissions.js:23-36 | a successful fetch replaces the roles with their normalised form; a failure changes nothing |
| `Permissions.PermissionsView.SetNewPermission` | src/components/Permissions.js:131 | the text field takes the typed text; nothing else changes |
| `Permissions.PermissionsView.TogglePermission` | src/components/Permissions.js:38-58 | the roles become the guarded toggle; a protected role sends nothing; otherwise exactly one PUT is sent, for the id, carrying the updated role; the catalog is unchanged |
| `Permissions.PermissionsView.AddPermission` | src/components/Permissions.js:60-73 | an accepted name is appended, the field is cleared and one POST is sent; otherwise the alert is raised and nothing changes or is sent |
| `Permissions.PermissionsView.DeletePermission` | src/components/Permissions.js:75-100 | the catalog loses the name, the roles get the cascade, then one DELETE for the name and one PUT per updated role follow; the catalog stays duplicate-free |
| `Roles.ActionsEnabled` | src/components/Roles.js:180 | a row's Edit and Delete buttons are disabled only for the names exactly "admin" and "user"; the capitalised "Admin" and "User" keep them enabled |
| `Roles.CanAct` | src/components/Roles.js:177-194 | an id can be edited or deleted only if some row carries it; an id whose every row is "admin" or "user" cannot |
| `Roles.RemoveRole` | src/components/Roles.js:52 | a role survives deletion exactly when its id differs from the deleted one |
| `Roles.RemoveRoleKeepsOthers` | src/components/Roles.js:52 | exactly the roles with the id are removed; the rest keep their order and counts |
| `Roles.RemoveRoleTwice` | src/components/Roles.js:49-57 | deleting the same id again changes nothing; deleting an absent id changes nothing |
| `Roles.RenameRole` | src/components/Roles.js:68-72 | only roles with the id get the new name; every role keeps its id and permissions; the role count is kept |
| `Roles.RenameRoleTwice` | src/components/Roles.js:68-72 | renaming twice to the same name equals renaming once; renaming to the current name changes nothing |
| `Roles.ProtectedRowSurvives` | src/components/Roles.js:177-194 | with unique ids, a role named "admin" or "user" survives every delete and rename the enabled buttons can start |
| `Roles.TogglePermissionInForm` | src/components/Roles.js:87-94 | the form flips the membership of the clicked permission only, and keeps its name |
| `Roles.TogglePermissionInFormTwice` | src/components/Roles.js:87-94 | two clicks on an unchecked box restore the form exactly |
| `Roles.RolesView.constructor` | src/components/Roles.js:21-24 | no roles, an empty form, nothing being edited |
| `Roles.RolesView.LoadRoles` | src/components/Roles.js:27-32 | a successful fetch takes the roles as returned; a failure changes nothing |
| `Roles.RolesView.SetFormName` | src/components/Roles.js:221 | the form takes the typed name and keeps its permissions |
| `Roles.RolesView.AddRole` | src/components/Roles.js:34-47 | an empty name raises the alert and sends nothing; otherwise the form is POSTed; only on success is the created role appended and the form reset; on failure nothing changes |
| `Roles.RolesView.DeleteRole` | src/components/Roles.js:49-57 | enabled only for a row not named "admin" or "user"; one DELETE; on success exactly the roles with the id are removed; on failure the alert is raised and the roles are kept |
| `Roles.RolesView.StartEditing` | src/components/Roles.js:59-62 | enabled only for a row not named "admin" or "user"; the editor opens on that id with its current name; the roles are untouched |
| `Roles.RolesView.SetNewRoleName` | src/components/Roles.js:135 | while editing, the editor takes the typed text |
| `Roles.RolesView.SaveEdit` | src/components/Roles.js:64-80 | one PUT with the new name; on success the roles with the id are renamed and the editor resets to none and ""; on failure the alert is raised and nothing changes |
| `Roles.RolesView.CancelEdit` | src/components/Roles.js:82-85 | the editor resets to none and ""; the roles and the form are untouched; the editor text is empty whenever no row is edited, so cancelling with no row being edited changes nothing |
| `Roles.RolesView.TogglePermission` | src/components/Roles.js:87-94 | the form's permission list is toggled; its name, the roles and the editor are untouched |
| `Users.FormOf` | src/components/Users.js:35-40 | the form copies exactly the user's name, email, role and status, and merging it back into the user gives the user |
| `Users.Merge` | src/components/Users.js:62 | merging the form keeps the user's id |
| `Users.MergeOverwrites` | src/components/Users.js:33-42 | the merged user's form is the form; a second merge replaces the first |
| `Users.UpdateUsers` | src/components/Users.js:61-63 | only users with the edited id take the form's four fields; every id and every other user is unchanged; the user count is kept |
| `Users.UpdateWithOwnForm` | src/components/Users.js:33-63 | with unique ids, saving an edit form left unchanged leaves the users as they were |
| `Users.RemoveUser` | src/components/Users.js:80 | a user survives deletion exactly when its id differs from the deleted one |
| `Users.RemoveUserKeepsOthers` | src/components/Users.js:76-87 | exactly the users with the id are removed; the rest keep their order and counts |
| `Users.RemoveUserUnique` | src/components/Users.js:80 | the list after a deletion is the only subsequence of the users with those contents |
| `Users.UsersView.constructor` | src/components/Users.js:22-25 | no users, no user being edited, an empty form, the modal closed |
| `Users.UsersView.LoadUsers` | src/components/Users.js:27-30 | a successful fetch sets the users; a failure changes nothing |
| `Users.UsersView.SetForm` | src/components/Users.js:216-251 | the modal's fields take the typed values; nothing else changes |
| `Users.UsersView.HandleEdit` | src/components/Users.js:33-42 | the modal opens in edit mode on the user, with exactly its name, email, role and status in the form |
| `Users.UsersView.OpenNewUser` | src/components/Users.js:114-118 | the form is cleared, edit mode is left and the modal opens |
| `Users.UsersView.HandleSave` | src/components/Users.js:45-73 | add mode: a POST; on success the created user is appended, the modal closes and the form is cleared. Edit mode: a PUT for the edited id; on success those users take the form and the modal closes and leaves edit mode. On failure nothing changes, and only edit mode alerts |
| `Users.UsersView.HandleDelete` | src/components/Users.js:76-87 | one DELETE; on success exactly the users with the id are removed; on failure the alert is raised and the users are kept |
| `Users.UsersView.HandleCloseModal` | src/components/Users.js:90-93 | the modal closes and leaves edit mode; the users and the form are kept; a user is only edited while the modal is open, so closing a closed modal changes nothing |

## Left out

- The HTTP transport, the URLs and the JSON bodies beyond the fields modelled are left out. Each
  call is a `Request` value, and its answer is an `Outcome` parameter.
- The initial `useEffect` fetches are left out as calls. What is modelled is how each screen
  handles the answer (`LoadRoles`, `LoadUsers`).
- Asynchrony is left out. A handler and its promise callback form one step. The state the
  callback captured is the state at the call, so stale-closure effects and the order in which
  remote answers arrive are not modelled.
- `console.error` is left out. A blocking `alert` is the returned `alerted` flag.
- Rendering, styling, and the checkboxes' `checked` and `disabled` display are left out. The one
  exception is the role list's Edit/Delete enabling guard, modelled as a precondition.
- `Dashboard.js` and `App.js` are layout and routing only, and `Dashboard.js` is not part of this
  model.
- Records carry only the fields the screens read. The spread `...role` would also copy any other
  fields the store returns. Ids are modelled as `int`.
- The role form's checkboxes show the fixed names "Read", "Write", "Delete" and "Update"; that
  list is rendering only. `Roles.RolesView.TogglePermission` accepts any name, because the
  handler itself does not check.
- Permissions.PermissionsView.TogglePermission: requires the role id to be present, because the
  source dereferences `undefined` for an unknown id.
- Permissions.ToggleMatrixKeepsProtected: assumes unique role ids. With a shared id, the guard
  sees only the first role, so a protected role behind an unprotected one with the same id is
  toggled.
- Roles.ProtectedRowSurvives: assumes unique role ids. Delete and rename act on every row with
  the id.
- Users.UsersView.HandleSave: in edit mode the PUT's response body is ignored. Only whether the
  `outcome` is `Ok` matters there.
