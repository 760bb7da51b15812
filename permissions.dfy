/** The permission matrix screen (src/components/Permissions.js): a catalog of permission
    names, the roles loaded from the remote store, and one checkbox per (role, permission).
    Every handler here updates the local state first and then fires its remote calls without
    looking at their outcome, so no handler takes an `Outcome` and a failed call can never undo
    a local change. */
module Permissions {
  import opened Lists
  import opened Rbac

  /** The catalog the screen starts with. */
  const InitialCatalog: seq<string> := ["Read", "Write", "Delete", "Update"]

  /** The matrix refuses to toggle a role with exactly one of these names. The comparison is
      case-sensitive, so the role list's lower-case "user" and "admin" are not protected here. */
  function IsProtected(name: string): (r: bool)
    ensures r ==> name == "User" || name == "Admin"
    ensures name == "user" || name == "admin" ==> !r
  {
    name == "User" || name == "Admin"
  }

  /** A normalised role as a record with its permission list present. */
  function AsRecord(role: Role): RoleRecord
  {
    RoleRecord(role.id, role.name, Some(role.permissions))
  }

  /** Load-time normalisation: every role gets a defined permission list; a missing list
      becomes empty and a present one is kept as it is. */
  function Normalize(raw: seq<RoleRecord>): (r: seq<Role>)
    ensures |r| == |raw|
    ensures forall i :: 0 <= i < |raw| ==> r[i].id == raw[i].id && r[i].name == raw[i].name
    ensures forall i :: 0 <= i < |raw| && raw[i].permissions.None? ==> r[i].permissions == []
    ensures forall i :: 0 <= i < |raw| && raw[i].permissions.Some? ==>
      r[i].permissions == raw[i].permissions.value
  {
    seq(|raw|, i requires 0 <= i < |raw| =>
      Role(raw[i].id, raw[i].name, if raw[i].permissions.Some? then raw[i].permissions.value else []))
  }

  /** Normalising records that all carry a list loses nothing, and normalising the records of
      normalised roles gives those roles back. */
  lemma NormalizeRoundTrip(raw: seq<RoleRecord>, roles: seq<Role>)
    ensures (forall i :: 0 <= i < |raw| ==> raw[i].permissions.Some?) ==>
      seq(|raw|, i requires 0 <= i < |raw| => AsRecord(Normalize(raw)[i])) == raw
    ensures Normalize(seq(|roles|, i requires 0 <= i < |roles| => AsRecord(roles[i]))) == roles
  {
  }

  /** `roles.find(r => r.id === id)`, as an index, for an id that occurs. */
  function FirstIndex(roles: seq<Role>, id: Id): (k: nat)
    requires exists i :: 0 <= i < |roles| && roles[i].id == id
    ensures k < |roles| && roles[k].id == id
    ensures forall j :: 0 <= j < k ==> roles[j].id != id
    decreases |roles|
  {
    if roles[0].id == id then 0
    else
      var i :| 0 <= i < |roles| && roles[i].id == id;
      assert roles[1..][i - 1].id == id;
      1 + FirstIndex(roles[1..], id)
  }

  /** The role list after flipping `p` on every role whose id is `id`. */
  function ToggleRoles(roles: seq<Role>, id: Id, p: string): (r: seq<Role>)
    ensures |r| == |roles|
    ensures forall i :: 0 <= i < |roles| ==> r[i].id == roles[i].id && r[i].name == roles[i].name
    ensures forall i :: 0 <= i < |roles| && roles[i].id != id ==> r[i] == roles[i]
  {
    seq(|roles|, i requires 0 <= i < |roles| =>
      if roles[i].id == id then roles[i].(permissions := Toggle(roles[i].permissions, p))
      else roles[i])
  }

  /** On a role with the toggled id, an absent `p` is appended at the end; a present `p` loses
      every copy while the other permissions keep their order and multiplicity. */
  lemma ToggleRolesEffect(roles: seq<Role>, id: Id, p: string, i: int)
    requires 0 <= i < |roles| && roles[i].id == id
    ensures var before, after := roles[i].permissions, ToggleRoles(roles, id, p)[i].permissions;
      (p !in before ==> after == before + [p]) &&
      (p in before ==>
        p !in after && Subseq(after, before) &&
        forall q :: q != p ==> multiset(after)[q] == multiset(before)[q])
  {
    WithoutKeepsOthers(roles[i].permissions, p);
  }

  /** Toggling the same permission on the same id twice restores, on every role, the exact
      list when `p` was absent and the membership when it was present. */
  lemma ToggleRolesTwice(roles: seq<Role>, id: Id, p: string)
    ensures var twice := ToggleRoles(ToggleRoles(roles, id, p), id, p);
      |twice| == |roles| &&
      forall i :: 0 <= i < |roles| ==>
        twice[i].id == roles[i].id && twice[i].name == roles[i].name &&
        (p !in roles[i].permissions ==> twice[i] == roles[i]) &&
        (forall q :: q in twice[i].permissions <==> q in roles[i].permissions)
    ensures (forall i :: 0 <= i < |roles| && roles[i].id == id ==> p !in roles[i].permissions) ==>
      ToggleRoles(ToggleRoles(roles, id, p), id, p) == roles
  {
    var twice := ToggleRoles(ToggleRoles(roles, id, p), id, p);
    forall i | 0 <= i < |roles| && roles[i].id == id && p !in roles[i].permissions
      ensures twice[i] == roles[i]
    {
      ToggleTwiceAbsent(roles[i].permissions, p);
    }
  }

  /** The role list after the matrix's checkbox of (`id`, `p`): unchanged when the first role with
      that id is protected, otherwise `ToggleRoles`. */
  function ToggleMatrix(roles: seq<Role>, id: Id, p: string): (r: seq<Role>)
    requires exists i :: 0 <= i < |roles| && roles[i].id == id
    ensures IsProtected(roles[FirstIndex(roles, id)].name) ==> r == roles
  {
    if IsProtected(roles[FirstIndex(roles, id)].name) then roles else ToggleRoles(roles, id, p)
  }

  /** With unique ids, no toggle changes a protected role: its own checkboxes are refused by the
      guard and a toggle of another id leaves it alone. No toggle renames a role, so a protected
      role stays protected and the lemma applies again after every toggle. */
  lemma ToggleMatrixKeepsProtected(roles: seq<Role>, id: Id, p: string, k: int)
    requires exists i :: 0 <= i < |roles| && roles[i].id == id
    requires forall i, j :: 0 <= i < j < |roles| ==> roles[i].id != roles[j].id
    requires 0 <= k < |roles| && IsProtected(roles[k].name)
    ensures |ToggleMatrix(roles, id, p)| == |roles| && ToggleMatrix(roles, id, p)[k] == roles[k]
    ensures forall j :: 0 <= j < |roles| ==> ToggleMatrix(roles, id, p)[j].name == roles[j].name
  {
  }

  /** The cascade of a catalog deletion: `p` is filtered out of every role's list. */
  function Cascade(roles: seq<Role>, p: string): (r: seq<Role>)
    ensures |r| == |roles|
    ensures forall i :: 0 <= i < |roles| ==> r[i].id == roles[i].id && r[i].name == roles[i].name
  {
    seq(|roles|, i requires 0 <= i < |roles| =>
      roles[i].(permissions := Without(roles[i].permissions, p)))
  }

  /** After the cascade no role holds `p`, protected roles included; every other permission
      keeps its place and multiplicity, and a role that did not hold `p` is unchanged. */
  lemma CascadeEffect(roles: seq<Role>, p: string)
    ensures var r := Cascade(roles, p);
      forall i :: 0 <= i < |roles| ==>
        p !in r[i].permissions &&
        Subseq(r[i].permissions, roles[i].permissions) &&
        (forall q :: q != p ==> multiset(r[i].permissions)[q] == multiset(roles[i].permissions)[q]) &&
        (p !in roles[i].permissions ==> r[i] == roles[i])
  {
    var r := Cascade(roles, p);
    forall i | 0 <= i < |roles|
      ensures Subseq(r[i].permissions, roles[i].permissions)
      ensures forall q :: q != p ==> multiset(r[i].permissions)[q] == multiset(roles[i].permissions)[q]
      ensures p !in roles[i].permissions ==> r[i] == roles[i]
    {
      WithoutKeepsOthers(roles[i].permissions, p);
      if p !in roles[i].permissions {
        WithoutAbsent(roles[i].permissions, p);
      }
    }
  }

  /** Validation of a new catalog entry: `None` when the name is empty or already present
      (the "already exists or is empty" alert), otherwise the catalog with the name appended. */
  function AddToCatalog(catalog: seq<string>, p: string): (r: Option<seq<string>>)
    ensures r.Some? <==> p != "" && p !in catalog
  {
    if p != "" && p !in catalog then Some(catalog + [p]) else None
  }

  /** An accepted name ends up in the catalog exactly once, at the end, the catalog stays
      duplicate-free, and adding the same name again is rejected. */
  lemma AddToCatalogOnce(catalog: seq<string>, p: string)
    requires AddToCatalog(catalog, p).Some?
    ensures var c := AddToCatalog(catalog, p).value;
      c[..|catalog|] == catalog && c[|catalog|] == p && |c| == |catalog| + 1 &&
      multiset(c)[p] == 1 &&
      (NoDup(catalog) ==> NoDup(c)) &&
      AddToCatalog(c, p) == None
  {
  }

  /** Deleting from a duplicate-free catalog leaves it duplicate-free and without the name. */
  lemma DeleteFromCatalog(catalog: seq<string>, p: string)
    requires NoDup(catalog)
    ensures NoDup(Without(catalog, p)) && p !in Without(catalog, p)
    ensures Subseq(Without(catalog, p), catalog)
    ensures p !in catalog ==> Without(catalog, p) == catalog
  {
    WithoutNoDup(catalog, p);
    WithoutKeepsOthers(catalog, p);
    if p !in catalog {
      WithoutAbsent(catalog, p);
    }
  }

  /** Every permission a role holds is in the catalog. */
  ghost predicate Consistent(catalog: seq<string>, roles: seq<Role>)
  {
    forall i, q :: 0 <= i < |roles| && q in roles[i].permissions ==> q in catalog
  }

  /** The catalog and the roles stay consistent under a toggle of a catalog entry (the only
      ones the matrix shows), under an addition, and under a deletion with its cascade. */
  lemma ConsistencyPreserved(catalog: seq<string>, roles: seq<Role>, id: Id, p: string)
    requires Consistent(catalog, roles)
    ensures p in catalog ==> Consistent(catalog, ToggleRoles(roles, id, p))
    ensures Consistent(catalog + [p], roles)
    ensures Consistent(Without(catalog, p), Cascade(roles, p))
  {
  }

  /** A worked example: catalog ["Read", "Write"], an "Editor" role 1 holding "Read" and an
      "Admin" role 2 holding both. Toggling "Write" on role 1 appends it; on role 2 the guard
      refuses; deleting "Write" takes it from the catalog and from both roles, "Admin" included. */
  lemma ExampleMatrix()
    ensures var catalog := ["Read", "Write"];
      var roles := [Role(1, "Editor", ["Read"]), Role(2, "Admin", ["Read", "Write"])];
      roles[0].id == 1 && roles[1].id == 2 &&
      ToggleMatrix(roles, 1, "Write") == [Role(1, "Editor", ["Read", "Write"]), roles[1]] &&
      ToggleMatrix(roles, 2, "Write") == roles &&
      Without(catalog, "Write") == ["Read"] &&
      Cascade(roles, "Write") == [Role(1, "Editor", ["Read"]), Role(2, "Admin", ["Read"])]
  {
    var roles := [Role(1, "Editor", ["Read"]), Role(2, "Admin", ["Read", "Write"])];
    assert FirstIndex(roles, 2) == 1 by {
      assert roles[0].id != 2;
    }
    WithoutAbsent(["Read"], "Write");
    var keep := (y: string) => y != "Write";
    assert ["Read", "Write"] == ["Read"] + ["Write"];
    FilterAppend(["Read"], ["Write"], keep);
    FilterAllKept(["Read"], keep);
  }

  /** One PUT per role, for that role's id and carrying that role, in list order. */
  method PutEach(roles: seq<Role>) returns (reqs: seq<Request>)
    ensures |reqs| == |roles|
    ensures forall i :: 0 <= i < |roles| ==> reqs[i] == PutRole(roles[i].id, roles[i])
  {
    reqs := [];
    for i := 0 to |roles|
      invariant |reqs| == i
      invariant forall j :: 0 <= j < i ==> reqs[j] == PutRole(roles[j].id, roles[j])
    {
      reqs := reqs + [PutRole(roles[i].id, roles[i])];
    }
  }

  class PermissionsView {
    var roles: seq<Role>
    var permissions: seq<string>
    /** The text of the "New Permission" field. */
    var newPermission: string

    /** Permission names are unique in the catalog. */
    ghost predicate Valid()
      reads this
    {
      NoDup(permissions)
    }

    constructor ()
      ensures Valid()
      ensures roles == [] && permissions == InitialCatalog && newPermission == ""
    {
      roles := [];
      permissions := InitialCatalog;
      newPermission := "";
    }

    /** The answer to the initial fetch of the roles: a successful answer replaces the roles by
        their normalised form; a failed one is only logged. */
    method LoadRoles(response: Outcome<seq<RoleRecord>>)
      requires Valid()
      modifies this
      ensures Valid()
      ensures roles == if response.Ok? then Normalize(response.payload) else old(roles)
      ensures permissions == old(permissions) && newPermission == old(newPermission)
    {
      if response.Ok? {
        roles := Normalize(response.payload);
      }
    }

    /** Typing into the "New Permission" field. */
    method SetNewPermission(text: string)
      requires Valid()
      modifies this
      ensures Valid()
      ensures newPermission == text
      ensures roles == old(roles) && permissions == old(permissions)
    {
      newPermission := text;
    }

    /** The checkbox of (`roleId`, `p`). The first role with that id decides the guard: when its
        name is exactly "User" or "Admin" nothing happens; otherwise `p` is flipped on every role
        with that id and one PUT is sent for `roleId` carrying the first such role as updated. */
    method TogglePermission(roleId: Id, p: string) returns (reqs: seq<Request>)
      requires Valid()
      requires exists i :: 0 <= i < |roles| && roles[i].id == roleId
      modifies this
      ensures Valid()
      ensures permissions == old(permissions) && newPermission == old(newPermission)
      ensures roles == ToggleMatrix(old(roles), roleId, p)
      ensures var k := FirstIndex(old(roles), roleId);
        reqs == if IsProtected(old(roles)[k].name) then [] else [PutRole(roleId, roles[k])]
    {
      var k := FirstIndex(roles, roleId);
      if IsProtected(roles[k].name) {
        return [];
      }
      roles := ToggleRoles(roles, roleId, p);
      reqs := [PutRole(roleId, roles[k])];
    }

    /** The "Add Permission" button: a non-empty name not yet in the catalog is appended, the
        field is cleared and a POST is sent; anything else raises the alert and changes nothing. */
    method AddPermission() returns (reqs: seq<Request>, alerted: bool)
      requires Valid()
      modifies this
      ensures Valid()
      ensures roles == old(roles)
      ensures alerted <==> AddToCatalog(old(permissions), old(newPermission)).None?
      ensures !alerted ==>
        permissions == AddToCatalog(old(permissions), old(newPermission)).value &&
        newPermission == "" && reqs == [PostPermission(old(newPermission))]
      ensures alerted ==>
        permissions == old(permissions) && newPermission == old(newPermission) && reqs == []
    {
      var added := AddToCatalog(permissions, newPermission);
      if added.Some? {
        AddToCatalogOnce(permissions, newPermission);
        reqs := [PostPermission(newPermission)];
        permissions := added.value;
        newPermission := "";
        alerted := false;
      } else {
        reqs := [];
        alerted := true;
      }
    }

    /** A "Delete" button of the catalog: the name leaves the catalog, the cascade removes it from
        every role (protected ones too), then one DELETE for the name and one PUT per role follow. */
    method DeletePermission(p: string) returns (reqs: seq<Request>)
      requires Valid()
      modifies this
      ensures Valid()
      ensures permissions == Without(old(permissions), p)
      ensures roles == Cascade(old(roles), p)
      ensures newPermission == old(newPermission)
      ensures |reqs| == |roles| + 1 && reqs[0] == Request.DeletePermission(p)
      ensures forall i :: 0 <= i < |roles| ==> reqs[i + 1] == PutRole(roles[i].id, roles[i])
    {
      DeleteFromCatalog(permissions, p);
      permissions := Without(permissions, p);
      roles := Cascade(roles, p);
      var puts := PutEach(roles);
      reqs := [Request.DeletePermission(p)] + puts;
    }
  }
}
