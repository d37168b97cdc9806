/** Properties of the record lifecycle that relate several handler calls:
    conservation and its failure under shared names, delete/restore as
    near-inverses, the invariants the local moves preserve, and the edit and
    view behaviour the source commits to. */
module LifecycleProperties {
  import opened Outcomes
  import opened Records
  import opened RecordLists
  import opened UserManagement

  /** No record sits in both lists. */
  ghost predicate Disjoint(s: State) {
    forall u :: u in s.users ==> u !in s.deletedUsers
  }

  /** No name is shared by two records, across both lists together. */
  ghost predicate UniqueNames(s: State) {
    forall n :: CountName(s.users, n) + CountName(s.deletedUsers, n) <= 1
  }

  /** A record whose name occurs once in its list is moved alone: soft-delete
      and restore of it keep the combined size of the two lists. */
  lemma MovesConserveUniqueName(s: State, name: string)
    ensures CountName(s.users, name) == 1 ==>
      name in Names(s.users) &&
      var t := HandleDeleteUser(s, name);
      |t.users| + |t.deletedUsers| == |s.users| + |s.deletedUsers|
    ensures CountName(s.deletedUsers, name) == 1 ==>
      name in Names(s.deletedUsers) &&
      var t := HandleRestoreUser(s, name);
      |t.users| + |t.deletedUsers| == |s.users| + |s.deletedUsers|
  {
    CountNamePositive(s.users, name);
    CountNamePositive(s.deletedUsers, name);
  }

  /** Soft-delete keeps names unique across the two lists. */
  lemma DeleteKeepsUniqueNames(s: State, name: string)
    requires UniqueNames(s)
    requires name in Names(s.users)
    ensures UniqueNames(HandleDeleteUser(s, name))
  {
    var t := HandleDeleteUser(s, name);
    var x := s.users[FirstIndex(s.users, name)];
    forall n ensures CountName(t.users, n) + CountName(t.deletedUsers, n) <= 1 {
      CountWithoutName(s.users, name, n);
      CountNameAppend(s.deletedUsers, [x], n);
      assert [x][1..] == [];
      CountNamePositive(s.users, name);
      assert CountName(s.users, n) + CountName(s.deletedUsers, n) <= 1;
      assert CountName(s.users, name) + CountName(s.deletedUsers, name) <= 1;
    }
  }

  /** Restore keeps names unique across the two lists. */
  lemma RestoreKeepsUniqueNames(s: State, name: string)
    requires UniqueNames(s)
    requires name in Names(s.deletedUsers)
    ensures UniqueNames(HandleRestoreUser(s, name))
  {
    var t := HandleRestoreUser(s, name);
    var x := s.deletedUsers[FirstIndex(s.deletedUsers, name)];
    forall n ensures CountName(t.users, n) + CountName(t.deletedUsers, n) <= 1 {
      CountWithoutName(s.deletedUsers, name, n);
      CountNameAppend(s.users, [x], n);
      assert [x][1..] == [];
      CountNamePositive(s.deletedUsers, name);
      assert CountName(s.users, n) + CountName(s.deletedUsers, n) <= 1;
      assert CountName(s.users, name) + CountName(s.deletedUsers, name) <= 1;
    }
  }

  /** Soft-delete then restore of a uniquely named record gives back the
      deleted list exactly and the active list up to order: the record
      returns at the end, the others keep their order. */
  lemma {:induction false} DeleteThenRestore(s: State, name: string)
    requires CountName(s.users, name) == 1
    requires name !in Names(s.deletedUsers)
    ensures name in Names(s.users)
    ensures name in Names(HandleDeleteUser(s, name).deletedUsers)
    ensures FirstIndex(s.users, name) < |s.users|
    ensures
      var k := FirstIndex(s.users, name);
      HandleRestoreUser(HandleDeleteUser(s, name), name)
        == s.(users := s.users[..k] + s.users[k + 1..] + [s.users[k]])
    ensures multiset(HandleRestoreUser(HandleDeleteUser(s, name), name).users) == multiset(s.users)
  {
    CountNamePositive(s.users, name);
    var k := FirstIndex(s.users, name);
    var x := s.users[k];
    var d := HandleDeleteUser(s, name);
    assert d.deletedUsers == s.deletedUsers + [x];
    AppendFreshName(s.deletedUsers, x, name);
    assert x in d.deletedUsers;
    UniqueNameFilter(s.users, name);
    assert d.users == s.users[..k] + s.users[k + 1..];
    var r := HandleRestoreUser(d, name);
    assert r.deletedUsers == s.deletedUsers;
    assert r.users == s.users[..k] + s.users[k + 1..] + [x];
    SplitAt(s.users, k);
  }

  /** Restore then soft-delete of a uniquely named record gives back the
      active list exactly; the record ends up at the end of the deleted list. */
  lemma {:induction false} RestoreThenDelete(s: State, name: string)
    requires CountName(s.deletedUsers, name) == 1
    requires name !in Names(s.users)
    ensures name in Names(s.deletedUsers)
    ensures name in Names(HandleRestoreUser(s, name).users)
    ensures FirstIndex(s.deletedUsers, name) < |s.deletedUsers|
    ensures
      var k := FirstIndex(s.deletedUsers, name);
      HandleDeleteUser(HandleRestoreUser(s, name), name)
        == s.(deletedUsers := s.deletedUsers[..k] + s.deletedUsers[k + 1..] + [s.deletedUsers[k]])
    ensures multiset(HandleDeleteUser(HandleRestoreUser(s, name), name).deletedUsers) == multiset(s.deletedUsers)
  {
    CountNamePositive(s.deletedUsers, name);
    var k := FirstIndex(s.deletedUsers, name);
    var x := s.deletedUsers[k];
    var r := HandleRestoreUser(s, name);
    assert r.users == s.users + [x];
    AppendFreshName(s.users, x, name);
    assert x in r.users;
    UniqueNameFilter(s.deletedUsers, name);
    assert r.deletedUsers == s.deletedUsers[..k] + s.deletedUsers[k + 1..];
    var d := HandleDeleteUser(r, name);
    assert d.users == s.users;
    assert d.deletedUsers == s.deletedUsers[..k] + s.deletedUsers[k + 1..] + [x];
    SplitAt(s.deletedUsers, k);
  }

  /** The duplicate-name hazard: two active records share a name, soft-delete
      removes both from the active list but moves only the first, and the
      second is then in neither list. */
  lemma DuplicateNameLosesRecord()
    ensures
      var a1 := Record("1", "A", "a1@x.com", "1");
      var a2 := Record("2", "A", "a2@x.com", "2");
      var s := Initial.(users := [a1, a2]);
      "A" in Names(s.users) &&
      var t := HandleDeleteUser(s, "A");
      t.users == [] && t.deletedUsers == [a1] && a2 !in t.users && a2 !in t.deletedUsers
  {
    var a1 := Record("1", "A", "a1@x.com", "1");
    var a2 := Record("2", "A", "a2@x.com", "2");
    var s := Initial.(users := [a1, a2]);
    assert a1 in s.users;
    assert s.users[1..] == [a2];
    assert [a2][1..] == [];
  }

  /** Soft-delete keeps the lists disjoint, whatever the names. */
  lemma DeleteKeepsDisjoint(s: State, name: string)
    requires Disjoint(s)
    requires name in Names(s.users)
    ensures Disjoint(HandleDeleteUser(s, name))
  {
    var t := HandleDeleteUser(s, name);
    WithoutNameContents(s.users, name);
    forall u | u in t.users ensures u !in t.deletedUsers {
      assert multiset(t.users)[u] > 0;
      assert u.name != name;
      assert u in s.users;
    }
  }

  /** Restore keeps the lists disjoint, whatever the names. */
  lemma RestoreKeepsDisjoint(s: State, name: string)
    requires Disjoint(s)
    requires name in Names(s.deletedUsers)
    ensures Disjoint(HandleRestoreUser(s, name))
  {
    var t := HandleRestoreUser(s, name);
    WithoutNameContents(s.deletedUsers, name);
    forall u | u in t.users ensures u !in t.deletedUsers {
    }
  }

  /** After mount the deleted list is empty, so the lists are disjoint, and
      names are unique whenever the loaded list has unique names. */
  lemma MountEstablishesInvariants(resp: Response<seq<Record>>)
    ensures Disjoint(Mount(resp))
    ensures (resp.Failure? || forall n :: CountName(resp.data, n) <= 1) ==> UniqueNames(Mount(resp))
  {
  }

  /** Every on-screen action keeps the lists disjoint, provided a record the
      server returns from a create or an update is not one already sitting
      in the deleted list (`AddCanBreakDisjoint` shows the proviso is needed). */
  lemma StepKeepsDisjoint(s: State, e: Event)
    requires Disjoint(s)
    requires Enabled(s, e)
    requires e.AddSubmitted? && e.created.Success? ==> e.created.data !in s.deletedUsers
    requires e.SaveClicked? && e.updated.Success? ==> e.updated.data !in s.deletedUsers
    ensures Disjoint(Step(s, e))
  {
    match e
    case DeleteClicked(row) =>
      DeleteKeepsDisjoint(s, s.users[row].name);
    case RestoreClicked(row) =>
      RestoreKeepsDisjoint(s, s.deletedUsers[row].name);
    case _ =>
  }

  /** Without the proviso on the server's response, a create that returns a
      record already in the deleted list puts it in both lists. */
  lemma AddCanBreakDisjoint()
    ensures
      var a := Record("1", "A", "a@x.com", "1");
      var s := Initial.(deletedUsers := [a]);
      Disjoint(s) && Enabled(s, AddSubmitted(Success(a))) &&
      var t := Step(s, AddSubmitted(Success(a)));
      a in t.users && a in t.deletedUsers
  {
    var a := Record("1", "A", "a@x.com", "1");
    assert a in Initial.(deletedUsers := [a]).deletedUsers;
    assert a in Initial.users + [a];
  }

  /** A record just created under a fresh name can be soft-deleted again,
      which gives back the active list as it was before the add. */
  lemma {:induction false} AddThenDelete(s: State, created: Record)
    requires created.name !in Names(s.users)
    ensures created.name in Names(HandleAddUser(s, Success(created)).users)
    ensures
      var t := HandleDeleteUser(HandleAddUser(s, Success(created)), created.name);
      t.users == s.users && t.deletedUsers == s.deletedUsers + [created] && t.user == EmptyForm
  {
    var a := HandleAddUser(s, Success(created));
    assert created in a.users;
    AppendFreshName(s.users, created, created.name);
  }

  /** A save whose response carries the saved id keeps every row's id, and
      applying the same response again changes nothing more. */
  lemma SaveKeepsIds(s: State, id: string, updated: Record)
    requires updated.id == id
    ensures Ids(HandleEditUser(s, id, Success(updated)).users) == Ids(s.users)
    ensures
      var t := HandleEditUser(s, id, Success(updated));
      HandleEditUser(t, id, Success(updated)) == t
  {
    ReplaceByIdKeepsIds(s.users, id, updated);
    ReplaceByIdIdempotent(s.users, id, updated);
  }

  /** Starting an edit discards the previous target and draft entirely. */
  lemma StartEditOverwrites(s: State, u1: Record, u2: Record)
    ensures HandleStartEdit(HandleStartEdit(s, u1), u2) == HandleStartEdit(s, u2)
  {
  }

  /** Cancel ends edit mode but keeps the draft, so the draft copied when the
      edit started survives the cancel. */
  lemma CancelKeepsDraft(s: State, u: Record)
    ensures
      var t := HandleCancelEdit(HandleStartEdit(s, u));
      t.editingUserId == None && t.editUser == FormOf(u) && t.(editUser := s.editUser, editingUserId := s.editingUserId) == s
  {
  }

  /** Switching the view twice to the same table is switching it once. */
  lemma ViewChangeIdempotent(s: State, v: View)
    ensures HandleViewChange(HandleViewChange(s, v), v) == HandleViewChange(s, v)
  {
  }

  /** Creating {name "A", email "a@x.com", mobile "1"} on an empty list with
      server id "1" gives a one-record active list. */
  lemma ScenarioCreate()
    ensures
      var s := HandleInputChange(HandleInputChange(HandleInputChange(Initial, Name, "A"), Email, "a@x.com"), Mobile, "1");
      s.user == Form("A", "a@x.com", "1") &&
      HandleAddUser(s, Success(Record("1", "A", "a@x.com", "1"))).users == [Record("1", "A", "a@x.com", "1")] &&
      HandleAddUser(s, Success(Record("1", "A", "a@x.com", "1"))).user == EmptyForm
  {
  }

  /** Deleting and restoring the only record "A". */
  lemma ScenarioDeleteRestore()
    ensures
      var a := Record("1", "A", "a@x.com", "1");
      var s := Initial.(users := [a]);
      "A" in Names(s.users) &&
      var d := HandleDeleteUser(s, "A");
      d.users == [] && d.deletedUsers == [a] &&
      "A" in Names(d.deletedUsers) &&
      var r := HandleRestoreUser(d, "A");
      r.users == [a] && r.deletedUsers == []
  {
    var a := Record("1", "A", "a@x.com", "1");
    assert a in [a];
    assert [a] + [] == [a];
  }

  /** A failed save while editing row "1" leaves the list and the edit target. */
  lemma ScenarioEditFailure(s: State)
    requires s.editingUserId == Some("1")
    ensures
      var t := HandleEditUser(HandleEditInputChange(s, Name, "B"), "1", Failure);
      t.users == s.users && t.editingUserId == Some("1") && t.editUser.name == "B"
  {
  }
}
