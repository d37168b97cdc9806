/** The state and event handlers of the `UserManagement` component, each
    handler a pure transition from the component's state before the event to
    its state after it. Remote calls enter as `Response` parameters; each event
    is applied whole, one after another. */
module UserManagement {
  import opened Outcomes
  import opened Records
  import opened RecordLists

  /** Which table is rendered: the active users or the soft-deleted ones. */
  datatype View = UsersView | DeletedView

  /** The component's six pieces of state. */
  datatype State = State(
    user: Form,                     // the new-user draft
    users: seq<Record>,             // the active list
    deletedUsers: seq<Record>,      // the soft-deleted list, local only
    editingUserId: Option<string>,  // the row in edit mode, `None` for null
    editUser: Form,                 // the edit draft
    view: View)

  /** The state on mount, before the initial load completes. */
  const Initial: State := State(EmptyForm, [], [], None, EmptyForm, UsersView)

  /** `fetchUsers`: a successful load replaces the active list wholesale;
      a failed one is logged and changes nothing. */
  function FetchUsers(s: State, resp: Response<seq<Record>>): (t: State)
    ensures resp.Success? ==> t.users == resp.data
    ensures resp.Failure? ==> t == s
    ensures t.deletedUsers == s.deletedUsers
    ensures t.(users := s.users) == s
  {
    match resp
    case Success(data) => s.(users := data)
    case Failure => s
  }

  /** The mount hook: one load applied to the initial state. */
  function Mount(resp: Response<seq<Record>>): (t: State)
    ensures t.deletedUsers == [] && t.editingUserId == None && t.view == UsersView
    ensures t.user == EmptyForm && t.editUser == EmptyForm
    ensures resp.Success? ==> t.users == resp.data
    ensures resp.Failure? ==> t.users == []
  {
    FetchUsers(Initial, resp)
  }

  /** `handleInputChange`: one field of the new-user draft changes. */
  function HandleInputChange(s: State, f: Field, v: string): (t: State)
    ensures t.user.Get(f) == v
    ensures forall g :: g != f ==> t.user.Get(g) == s.user.Get(g)
    ensures t.(user := s.user) == s
  {
    s.(user := s.user.With(f, v))
  }

  /** `handleAddUser`: on success the created record is appended after the
      existing ones and the draft is cleared; on failure nothing changes, so
      the draft is kept for a retry. */
  function HandleAddUser(s: State, resp: Response<Record>): (t: State)
    ensures resp.Success? ==>
      && |t.users| == |s.users| + 1
      && t.users[..|s.users|] == s.users
      && t.users[|s.users|] == resp.data
      && multiset(t.users) == multiset(s.users) + multiset{resp.data}
      && t.user == EmptyForm
    ensures resp.Failure? ==> t == s
    ensures t.(users := s.users, user := s.user) == s
  {
    match resp
    case Success(created) => s.(users := s.users + [created], user := EmptyForm)
    case Failure => s
  }

  /** `handleDeleteUser`: every record called `name` leaves the active list,
      but only the first of them is appended to the deleted list. The source
      appends whatever `find` returns; its only caller passes the name of a
      rendered active row, so a match exists. */
  function HandleDeleteUser(s: State, name: string): (t: State)
    requires name in Names(s.users)
    ensures name !in Names(t.users)
    ensures t.users == WithoutName(s.users, name)
    ensures FirstIndex(s.users, name) < |s.users|
    ensures t.deletedUsers == s.deletedUsers + [s.users[FirstIndex(s.users, name)]]
    ensures |t.users| + |t.deletedUsers| == |s.users| + |s.deletedUsers| + 1 - CountName(s.users, name)
    ensures multiset(t.users) + multiset(t.deletedUsers) <= multiset(s.users) + multiset(s.deletedUsers)
    ensures t.(users := s.users, deletedUsers := s.deletedUsers) == s
  {
    var moved := Find(s.users, name);
    MoveNeverInvents(s.users, s.deletedUsers, name);
    s.(users := WithoutName(s.users, name), deletedUsers := s.deletedUsers + [moved.value])
  }

  /** `handleRestoreUser`: the mirror image of `HandleDeleteUser`, from the
      deleted list back to the end of the active list. */
  function HandleRestoreUser(s: State, name: string): (t: State)
    requires name in Names(s.deletedUsers)
    ensures name !in Names(t.deletedUsers)
    ensures t.deletedUsers == WithoutName(s.deletedUsers, name)
    ensures FirstIndex(s.deletedUsers, name) < |s.deletedUsers|
    ensures t.users == s.users + [s.deletedUsers[FirstIndex(s.deletedUsers, name)]]
    ensures |t.users| + |t.deletedUsers| == |s.users| + |s.deletedUsers| + 1 - CountName(s.deletedUsers, name)
    ensures multiset(t.users) + multiset(t.deletedUsers) <= multiset(s.users) + multiset(s.deletedUsers)
    ensures t.(users := s.users, deletedUsers := s.deletedUsers) == s
  {
    var moved := Find(s.deletedUsers, name);
    var t := s.(deletedUsers := WithoutName(s.deletedUsers, name), users := s.users + [moved.value]);
    MoveNeverInvents(s.deletedUsers, s.users, name);
    assert multiset(t.users) + multiset(t.deletedUsers) == multiset(t.deletedUsers) + multiset(t.users);
    t
  }

  /** `handleEditUser`: on success every record whose id is `id` becomes the
      server's response and edit mode ends; on failure nothing changes, so
      the row stays in edit mode for another try. */
  function HandleEditUser(s: State, id: string, resp: Response<Record>): (t: State)
    ensures |t.users| == |s.users|
    ensures resp.Success? ==>
      && (forall i :: 0 <= i < |s.users| && s.users[i].id != id ==> t.users[i] == s.users[i])
      && (forall i :: 0 <= i < |s.users| && s.users[i].id == id ==> t.users[i] == resp.data)
      && t.editingUserId == None
    ensures resp.Failure? ==> t == s
    ensures t.(users := s.users, editingUserId := s.editingUserId) == s
  {
    match resp
    case Success(updated) => s.(users := ReplaceById(s.users, id, updated), editingUserId := None)
    case Failure => s
  }

  /** `handleStartEdit`: the row of `u` enters edit mode, replacing any
      previous edit target, and the edit draft becomes a copy of `u`. */
  function HandleStartEdit(s: State, u: Record): (t: State)
    ensures t.editingUserId == Some(u.id)
    ensures forall f :: t.editUser.Get(f) == u.Get(f)
    ensures t.(editingUserId := s.editingUserId, editUser := s.editUser) == s
  {
    s.(editingUserId := Some(u.id), editUser := FormOf(u))
  }

  /** `handleEditInputChange`: one field of the edit draft changes. */
  function HandleEditInputChange(s: State, f: Field, v: string): (t: State)
    ensures t.editUser.Get(f) == v
    ensures forall g :: g != f ==> t.editUser.Get(g) == s.editUser.Get(g)
    ensures t.(editUser := s.editUser) == s
  {
    s.(editUser := s.editUser.With(f, v))
  }

  /** `handleCancelEdit`: edit mode ends; the edit draft is left as it was. */
  function HandleCancelEdit(s: State): (t: State)
    ensures t.editingUserId == None
    ensures t.editUser == s.editUser
    ensures t.(editingUserId := s.editingUserId) == s
  {
    s.(editingUserId := None)
  }

  /** `handleViewChange`: selects the table to render and touches no data. */
  function HandleViewChange(s: State, v: View): (t: State)
    ensures t.view == v
    ensures t.(view := s.view) == s
  {
    s.(view := v)
  }

  /** The user actions the rendered component offers. Row events carry the
      index of the row clicked in the table on screen; remote outcomes ride
      along with the event that awaits them. */
  datatype Event =
    | ViewClicked(target: View)
    | InputChanged(field: Field, value: string)
    | AddSubmitted(created: Response<Record>)
    | EditClicked(row: nat)
    | DeleteClicked(row: nat)
    | EditInputChanged(field: Field, value: string)
    | SaveClicked(row: nat, updated: Response<Record>)
    | CancelClicked(row: nat)
    | RestoreClicked(row: nat)

  /** Whether the element that fires `e` is on screen in state `s`: the form
      and the active table only in the users view, the deleted table only in
      the other; a row shows Save/Cancel and the edit inputs when it is the
      edit target, Edit/Delete otherwise. The Delete and Restore buttons are
      on screen only beside a row of their list, so they always pass a name
      that the list holds; in the deleted view only the view buttons and
      Restore are on screen. */
  predicate Enabled(s: State, e: Event)
    ensures Enabled(s, e) && e.DeleteClicked? ==>
      e.row < |s.users| && s.users[e.row].name in Names(s.users)
    ensures Enabled(s, e) && e.RestoreClicked? ==>
      e.row < |s.deletedUsers| && s.deletedUsers[e.row].name in Names(s.deletedUsers)
    ensures Enabled(s, e) && e.SaveClicked? ==>
      e.row < |s.users| && s.editingUserId == Some(s.users[e.row].id)
    ensures Enabled(s, e) && s.view == DeletedView ==> e.ViewClicked? || e.RestoreClicked?
  {
    assert e.DeleteClicked? && e.row < |s.users| ==> s.users[e.row] in s.users;
    assert e.RestoreClicked? && e.row < |s.deletedUsers| ==> s.deletedUsers[e.row] in s.deletedUsers;
    match e
    case ViewClicked(_) => true
    case InputChanged(_, _) => s.view == UsersView
    case AddSubmitted(_) => s.view == UsersView
    case EditClicked(row) => s.view == UsersView && row < |s.users| && s.editingUserId != Some(s.users[row].id)
    case DeleteClicked(row) => s.view == UsersView && row < |s.users| && s.editingUserId != Some(s.users[row].id)
    case EditInputChanged(_, _) => s.view == UsersView && s.editingUserId.Some? && s.editingUserId.value in Ids(s.users)
    case SaveClicked(row, _) => s.view == UsersView && row < |s.users| && s.editingUserId == Some(s.users[row].id)
    case CancelClicked(row) => s.view == UsersView && row < |s.users| && s.editingUserId == Some(s.users[row].id)
    case RestoreClicked(row) => s.view == DeletedView && row < |s.deletedUsers|
  }

  /** Whether `e` can change either record list. */
  predicate ChangesLists(e: Event) {
    e.AddSubmitted? || e.DeleteClicked? || e.SaveClicked? || e.RestoreClicked?
  }

  /** One user action, dispatched to its handler with the arguments the
      rendered element passes. Only adding and saving bring in records from
      outside; every other action keeps the lists or only moves records
      between them. */
  function Step(s: State, e: Event): (t: State)
    requires Enabled(s, e)
    ensures !ChangesLists(e) ==> t.users == s.users && t.deletedUsers == s.deletedUsers
    ensures e.DeleteClicked? || e.RestoreClicked? ==>
      multiset(t.users) + multiset(t.deletedUsers) <= multiset(s.users) + multiset(s.deletedUsers)
    ensures e.SaveClicked? ==> |t.users| == |s.users| && t.deletedUsers == s.deletedUsers
    ensures e.AddSubmitted? ==> |t.users| <= |s.users| + 1 && t.deletedUsers == s.deletedUsers
  {
    match e
    case ViewClicked(v) => HandleViewChange(s, v)
    case InputChanged(f, v) => HandleInputChange(s, f, v)
    case AddSubmitted(resp) => HandleAddUser(s, resp)
    case EditClicked(row) => HandleStartEdit(s, s.users[row])
    case DeleteClicked(row) => HandleDeleteUser(s, s.users[row].name)
    case EditInputChanged(f, v) => HandleEditInputChange(s, f, v)
    case SaveClicked(row, resp) => HandleEditUser(s, s.users[row].id, resp)
    case CancelClicked(_) => HandleCancelEdit(s)
    case RestoreClicked(row) => HandleRestoreUser(s, s.deletedUsers[row].name)
  }
}
