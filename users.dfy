/** The user list screen (src/components/Users.js): the users, the modal with its four-field form,
    and whether the modal edits an existing user or adds a new one. As on the role list, the list
    changes only when the remote call succeeds. */
module Users {
  import opened Lists
  import opened Rbac

  /** The form filled from a user: exactly its four editable fields, so that merging it back
      into the user gives the user again. */
  function FormOf(u: User): (r: UserForm)
    ensures r.name == u.name && r.email == u.email && r.role == u.role && r.status == u.status
    ensures Merge(u, r) == u
  {
    UserForm(u.name, u.email, u.role, u.status)
  }

  /** `{ ...user, ...form }`: the form's four fields overwrite the user's, the id stays. */
  function Merge(u: User, f: UserForm): (r: User)
    ensures r.id == u.id
  {
    User(u.id, f.name, f.email, f.role, f.status)
  }

  /** Merging is overwriting: the merged user's form is the form, and a second merge replaces
      the first. */
  lemma MergeOverwrites(u: User, f: UserForm, g: UserForm)
    ensures FormOf(Merge(u, f)) == f
    ensures Merge(Merge(u, f), g) == Merge(u, g)
  {
  }

  /** `users.map(user => user.id === id ? { ...user, ...form } : user)`. */
  function UpdateUsers(users: seq<User>, id: Id, f: UserForm): (r: seq<User>)
    ensures |r| == |users|
    ensures forall i :: 0 <= i < |users| ==> r[i].id == users[i].id
    ensures forall i :: 0 <= i < |users| && users[i].id != id ==> r[i] == users[i]
    ensures forall i :: 0 <= i < |users| && users[i].id == id ==> FormOf(r[i]) == f
  {
    seq(|users|, i requires 0 <= i < |users| =>
      if users[i].id == id then Merge(users[i], f) else users[i])
  }

  /** Saving the form that `HandleEdit` filled in, unchanged, leaves the list as it was when the
      ids are unique. */
  lemma UpdateWithOwnForm(users: seq<User>, k: int)
    requires 0 <= k < |users|
    requires forall i :: 0 <= i < |users| && i != k ==> users[i].id != users[k].id
    ensures UpdateUsers(users, users[k].id, FormOf(users[k])) == users
  {
  }

  function KeepOther(id: Id): User -> bool
  {
    (u: User) => u.id != id
  }

  /** `users.filter(user => user.id !== id)`. */
  function RemoveUser(users: seq<User>, id: Id): (r: seq<User>)
    ensures forall x :: x in r <==> x in users && x.id != id
  {
    Filter(users, KeepOther(id))
  }

  /** Deletion removes exactly the users with that id; the others keep their order and
      multiplicity. */
  lemma RemoveUserKeepsOthers(users: seq<User>, id: Id)
    ensures Subseq(RemoveUser(users, id), users)
    ensures forall x :: multiset(RemoveUser(users, id))[x] == if x.id != id then multiset(users)[x] else 0
  {
    FilterSubseq(users, KeepOther(id));
    forall x ensures multiset(RemoveUser(users, id))[x] == if x.id != id then multiset(users)[x] else 0 {
      FilterMultiset(users, KeepOther(id), x);
    }
  }

  /** The list after a deletion is the only subsequence of the users with those contents. */
  lemma RemoveUserUnique(users: seq<User>, id: Id, t: seq<User>)
    requires Subseq(t, users) && multiset(t) == multiset(RemoveUser(users, id))
    ensures t == RemoveUser(users, id)
  {
    FilterUnique(users, KeepOther(id), t);
  }

  class UsersView {
    var users: seq<User>
    /** The user the modal edits; `None` while it adds a new user. */
    var editUser: Option<User>
    var form: UserForm
    var openModal: bool

    /** A user is only ever being edited while the modal is open. */
    ghost predicate Valid()
      reads this
    {
      editUser.Some? ==> openModal
    }

    constructor ()
      ensures Valid()
      ensures users == [] && editUser == None && form == EmptyUserForm && !openModal
    {
      users := [];
      editUser := None;
      form := EmptyUserForm;
      openModal := false;
    }

    /** The answer to the initial fetch of the users. */
    method LoadUsers(response: Outcome<seq<User>>)
      requires Valid()
      modifies this
      ensures Valid()
      ensures users == if response.Ok? then response.payload else old(users)
      ensures editUser == old(editUser) && form == old(form) && openModal == old(openModal)
    {
      if response.Ok? {
        users := response.payload;
      }
    }

    /** Typing into the modal's fields. */
    method SetForm(f: UserForm)
      requires Valid()
      modifies this
      ensures Valid()
      ensures form == f
      ensures users == old(users) && editUser == old(editUser) && openModal == old(openModal)
    {
      form := f;
    }

    /** A user card's edit button: the modal opens on that user with its four fields. */
    method HandleEdit(u: User)
      requires Valid()
      modifies this
      ensures Valid()
      ensures editUser == Some(u) && form == FormOf(u) && openModal
      ensures users == old(users)
    {
      editUser := Some(u);
      form := FormOf(u);
      openModal := true;
    }

    /** The "Add New User" button: the modal opens on an empty form in add mode. */
    method OpenNewUser()
      requires Valid()
      modifies this
      ensures Valid()
      ensures form == EmptyUserForm && editUser == None && openModal
      ensures users == old(users)
    {
      form := EmptyUserForm;
      editUser := None;
      openModal := true;
    }

    /** The modal's save button. In add mode the form is POSTed and, on success, the created
        user is appended, the modal closes and the form is cleared (a failure is only logged).
        In edit mode the form is PUT for the edited user's id and, on success, the users with
        that id take the form's fields and the modal closes out of edit mode (a failure raises
        the alert). A failed call changes nothing. The edit call's response body is ignored. */
    method HandleSave(outcome: Outcome<User>) returns (reqs: seq<Request>, alerted: bool)
      requires Valid()
      modifies this
      ensures Valid()
      ensures old(editUser).None? ==>
        reqs == [PostUser(old(form))] && !alerted && editUser == None
      ensures old(editUser).None? && outcome.Ok? ==>
        users == old(users) + [outcome.payload] && !openModal && form == EmptyUserForm
      ensures old(editUser).Some? ==>
        reqs == [PutUser(old(editUser).value.id, old(form))] && (alerted <==> outcome.Fail?) &&
        form == old(form)
      ensures old(editUser).Some? && outcome.Ok? ==>
        users == UpdateUsers(old(users), old(editUser).value.id, old(form)) && !openModal &&
        editUser == None
      ensures outcome.Fail? ==>
        users == old(users) && openModal == old(openModal) && form == old(form) &&
        editUser == old(editUser)
    {
      match editUser
      case None =>
        reqs, alerted := [PostUser(form)], false;
        if outcome.Ok? {
          users := users + [outcome.payload];
          openModal := false;
          form := EmptyUserForm;
        }
      case Some(u) =>
        reqs, alerted := [PutUser(u.id, form)], outcome.Fail?;
        if outcome.Ok? {
          users := UpdateUsers(users, u.id, form);
          openModal := false;
          editUser := None;
        }
    }

    /** A user card's delete button: the DELETE is sent; on success the users with that id are
        removed, on failure the alert is raised and the list is kept. */
    method HandleDelete(id: Id, outcome: Outcome<()>) returns (reqs: seq<Request>, alerted: bool)
      requires Valid()
      modifies this
      ensures Valid()
      ensures reqs == [DeleteUser(id)]
      ensures alerted <==> outcome.Fail?
      ensures users == if outcome.Ok? then RemoveUser(old(users), id) else old(users)
      ensures editUser == old(editUser) && form == old(form) && openModal == old(openModal)
    {
      reqs, alerted := [DeleteUser(id)], outcome.Fail?;
      if outcome.Ok? {
        users := RemoveUser(users, id);
      }
    }

    /** Closing the modal leaves edit mode and keeps the users and the form. A user is only
        edited while the modal is open, so closing a closed modal changes nothing. */
    method HandleCloseModal()
      requires Valid()
      modifies this
      ensures Valid()
      ensures !openModal && editUser == None
      ensures !old(openModal) ==> editUser == old(editUser)
      ensures users == old(users) && form == old(form)
    {
      openModal := false;
      editUser := None;
    }
  }
}
