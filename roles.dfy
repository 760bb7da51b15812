/** The role list screen (src/components/Roles.js): the roles as the remote store returns them,
    the "Add New Role" form and the inline rename editor. Unlike the permission matrix, every
    handler here waits for the remote outcome and changes the list only when the call succeeds;
    a failed call leaves the list as it was. */
module Roles {
  import opened Lists
  import opened Rbac

  /** The Edit and Delete buttons of a row are enabled unless its name is exactly the
      lower-case "admin" or "user". The comparison is case-sensitive, so the names the matrix
      protects, "Admin" and "User", keep both buttons enabled. */
  function ActionsEnabled(name: string): (r: bool)
    ensures !r ==> name == "admin" || name == "user"
    ensures name == "Admin" || name == "User" ==> r
  {
    name != "admin" && name != "user"
  }

  /** Some row with this id has its Edit and Delete buttons enabled. An id the list does not
      hold, or one held only by "admin" and "user" rows, can be neither edited nor deleted. */
  function CanAct(roles: seq<RoleRecord>, id: Id): (r: bool)
    ensures r ==> exists i :: 0 <= i < |roles| && roles[i].id == id
    ensures (forall i :: 0 <= i < |roles| && roles[i].id == id ==> !ActionsEnabled(roles[i].name)) ==> !r
  {
    exists i :: 0 <= i < |roles| && roles[i].id == id && ActionsEnabled(roles[i].name)
  }

  /** No two rows share an id. */
  ghost predicate UniqueIds(roles: seq<RoleRecord>)
  {
    forall i, j :: 0 <= i < j < |roles| ==> roles[i].id != roles[j].id
  }

  function KeepOther(id: Id): RoleRecord -> bool
  {
    (r: RoleRecord) => r.id != id
  }

  /** `roles.filter(role => role.id !== id)`. */
  function RemoveRole(roles: seq<RoleRecord>, id: Id): (r: seq<RoleRecord>)
    ensures forall x :: x in r <==> x in roles && x.id != id
  {
    Filter(roles, KeepOther(id))
  }

  /** Deletion removes exactly the rows with that id: the others stay with their order and
      multiplicity. */
  lemma RemoveRoleKeepsOthers(roles: seq<RoleRecord>, id: Id)
    ensures Subseq(RemoveRole(roles, id), roles)
    ensures forall x :: multiset(RemoveRole(roles, id))[x] == if x.id != id then multiset(roles)[x] else 0
  {
    FilterSubseq(roles, KeepOther(id));
    forall x ensures multiset(RemoveRole(roles, id))[x] == if x.id != id then multiset(roles)[x] else 0 {
      FilterMultiset(roles, KeepOther(id), x);
    }
  }

  /** Deleting an id again changes nothing, and deleting an absent id changes nothing. */
  lemma RemoveRoleTwice(roles: seq<RoleRecord>, id: Id)
    ensures RemoveRole(RemoveRole(roles, id), id) == RemoveRole(roles, id)
    ensures (forall i :: 0 <= i < |roles| ==> roles[i].id != id) ==> RemoveRole(roles, id) == roles
  {
    FilterIdempotent(roles, KeepOther(id));
    if forall i :: 0 <= i < |roles| ==> roles[i].id != id {
      FilterAllKept(roles, KeepOther(id));
    }
  }

  /** `roles.map(role => role.id === id ? { ...role, name } : role)`. */
  function RenameRole(roles: seq<RoleRecord>, id: Id, name: string): (r: seq<RoleRecord>)
    ensures |r| == |roles|
    ensures forall i :: 0 <= i < |roles| ==> r[i].id == roles[i].id && r[i].permissions == roles[i].permissions
    ensures forall i :: 0 <= i < |roles| && roles[i].id != id ==> r[i] == roles[i]
    ensures forall i :: 0 <= i < |roles| && roles[i].id == id ==> r[i].name == name
  {
    seq(|roles|, i requires 0 <= i < |roles| =>
      if roles[i].id == id then roles[i].(name := name) else roles[i])
  }

  /** Renaming to the same name twice is renaming once, and renaming the rows with an id to the
      name they all already carry changes nothing. */
  lemma RenameRoleTwice(roles: seq<RoleRecord>, id: Id, name: string)
    ensures RenameRole(RenameRole(roles, id, name), id, name) == RenameRole(roles, id, name)
    ensures (forall i :: 0 <= i < |roles| && roles[i].id == id ==> roles[i].name == name) ==>
      RenameRole(roles, id, name) == roles
  {
  }

  /** With unique ids, a row whose Edit and Delete buttons are disabled survives every delete
      and every rename the screen can start: both act on an id that some enabled row carries. */
  lemma ProtectedRowSurvives(roles: seq<RoleRecord>, id: Id, name: string, k: int)
    requires UniqueIds(roles)
    requires 0 <= k < |roles| && !ActionsEnabled(roles[k].name)
    requires CanAct(roles, id)
    ensures roles[k] in RemoveRole(roles, id)
    ensures RenameRole(roles, id, name)[k] == roles[k]
  {
  }

  /** The form's checkbox: flips `p` in the form's list and keeps the name. */
  function TogglePermissionInForm(form: RoleForm, p: string): (r: RoleForm)
    ensures r.name == form.name
    ensures p in r.permissions <==> p !in form.permissions
    ensures forall q :: q != p ==> (q in r.permissions <==> q in form.permissions)
  {
    form.(permissions := Toggle(form.permissions, p))
  }

  /** Two clicks on an unchecked box restore the form exactly. */
  lemma TogglePermissionInFormTwice(form: RoleForm, p: string)
    requires p !in form.permissions
    ensures TogglePermissionInForm(TogglePermissionInForm(form, p), p) == form
  {
    ToggleTwiceAbsent(form.permissions, p);
  }

  class RolesView {
    var roles: seq<RoleRecord>
    var form: RoleForm
    var editingRoleId: Option<Id>
    var newRoleName: string

    /** The rename text is only non-empty while a row is being edited. */
    ghost predicate Valid()
      reads this
    {
      editingRoleId.None? ==> newRoleName == ""
    }

    constructor ()
      ensures Valid()
      ensures roles == [] && form == EmptyRoleForm && editingRoleId == None && newRoleName == ""
    {
      roles := [];
      form := EmptyRoleForm;
      editingRoleId := None;
      newRoleName := "";
    }

    /** The answer to the initial fetch: on success the roles are taken as returned, without
        normalisation; a failure is only logged. */
    method LoadRoles(response: Outcome<seq<RoleRecord>>)
      requires Valid()
      modifies this
      ensures Valid()
      ensures roles == if response.Ok? then response.payload else old(roles)
      ensures form == old(form) && editingRoleId == old(editingRoleId) && newRoleName == old(newRoleName)
    {
      if response.Ok? {
        roles := response.payload;
      }
    }

    /** Typing into the "Role Name" field of the form. */
    method SetFormName(name: string)
      requires Valid()
      modifies this
      ensures Valid()
      ensures form == old(form).(name := name)
      ensures roles == old(roles) && editingRoleId == old(editingRoleId) && newRoleName == old(newRoleName)
    {
      form := form.(name := name);
    }

    /** The "Add Role" button. An empty name raises the alert and sends nothing; otherwise the
        form is POSTed, and only on success is the created role (with the id the store assigned)
        appended and the form reset. */
    method AddRole(outcome: Outcome<RoleRecord>) returns (reqs: seq<Request>, alerted: bool)
      requires Valid()
      modifies this
      ensures Valid()
      ensures alerted <==> old(form).name == ""
      ensures reqs == if alerted then [] else [PostRole(old(form))]
      ensures if !alerted && outcome.Ok?
        then roles == old(roles) + [outcome.payload] && form == EmptyRoleForm
        else roles == old(roles) && form == old(form)
      ensures editingRoleId == old(editingRoleId) && newRoleName == old(newRoleName)
    {
      if form.name == "" {
        return [], true;
      }
      reqs, alerted := [PostRole(form)], false;
      if outcome.Ok? {
        roles := roles + [outcome.payload];
        form := EmptyRoleForm;
      }
    }

    /** A row's Delete button, enabled only for a row that is not "admin" or "user". The DELETE
        is sent; on success every row with that id is removed, on failure the alert is raised
        and the list is kept. */
    method DeleteRole(id: Id, outcome: Outcome<()>) returns (reqs: seq<Request>, alerted: bool)
      requires Valid()
      requires CanAct(roles, id)
      modifies this
      ensures Valid()
      ensures reqs == [Request.DeleteRole(id)]
      ensures alerted <==> outcome.Fail?
      ensures roles == if outcome.Ok? then RemoveRole(old(roles), id) else old(roles)
      ensures form == old(form) && editingRoleId == old(editingRoleId) && newRoleName == old(newRoleName)
    {
      reqs := [Request.DeleteRole(id)];
      alerted := outcome.Fail?;
      if outcome.Ok? {
        roles := RemoveRole(roles, id);
      }
    }

    /** A row's Edit button, enabled only for a row that is not "admin" or "user": that row
        becomes the one being edited, with its current name in the editor. */
    method StartEditing(id: Id, currentName: string)
      requires Valid()
      requires exists i :: 0 <= i < |roles| && roles[i].id == id && roles[i].name == currentName
      requires ActionsEnabled(currentName)
      modifies this
      ensures Valid()
      ensures editingRoleId == Some(id) && newRoleName == currentName
      ensures roles == old(roles) && form == old(form)
    {
      editingRoleId := Some(id);
      newRoleName := currentName;
    }

    /** Typing into the rename editor, which is shown only while a row is being edited. */
    method SetNewRoleName(name: string)
      requires Valid()
      requires editingRoleId.Some?
      modifies this
      ensures Valid()
      ensures newRoleName == name
      ensures roles == old(roles) && form == old(form) && editingRoleId == old(editingRoleId)
    {
      newRoleName := name;
    }

    /** The Save button of the row being edited. A PUT with the new name is sent; on success
        the rows with that id are renamed (their permissions untouched) and the editor closes;
        on failure the alert is raised and nothing changes. */
    method SaveEdit(id: Id, outcome: Outcome<()>) returns (reqs: seq<Request>, alerted: bool)
      requires Valid()
      requires editingRoleId == Some(id)
      modifies this
      ensures Valid()
      ensures reqs == [PutRoleName(id, old(newRoleName))]
      ensures alerted <==> outcome.Fail?
      ensures if outcome.Ok?
        then roles == RenameRole(old(roles), id, old(newRoleName)) &&
          editingRoleId == None && newRoleName == ""
        else roles == old(roles) && editingRoleId == old(editingRoleId) && newRoleName == old(newRoleName)
      ensures form == old(form)
    {
      reqs := [PutRoleName(id, newRoleName)];
      alerted := outcome.Fail?;
      if outcome.Ok? {
        roles := RenameRole(roles, id, newRoleName);
        editingRoleId := None;
        newRoleName := "";
      }
    }

    /** The Cancel button of the row being edited: closes the editor, keeps the roles. With no
        row being edited the editor text is already empty, so cancelling then changes nothing. */
    method CancelEdit()
      requires Valid()
      modifies this
      ensures Valid()
      ensures editingRoleId == None && newRoleName == ""
      ensures old(editingRoleId).None? ==> newRoleName == old(newRoleName)
      ensures roles == old(roles) && form == old(form)
    {
      editingRoleId := None;
      newRoleName := "";
    }

    /** A permission checkbox of the "Add New Role" form. */
    method TogglePermission(p: string)
      requires Valid()
      modifies this
      ensures Valid()
      ensures form == TogglePermissionInForm(old(form), p)
      ensures roles == old(roles) && editingRoleId == old(editingRoleId) && newRoleName == old(newRoleName)
    {
      form := TogglePermissionInForm(form, p);
    }
  }
}
