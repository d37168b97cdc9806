# UserManagement record lifecycle, modelled in Dafny

The `UserManagement` React component is a panel where an operator creates, edits, soft-deletes and restores user records (name, email, mobile). The records live on a remote HTTP service. This project models the component's state and event handlers as pure transitions over an immutable `State`:

- the new-user draft `user`
- the active list `users`
- the soft-deleted list `deletedUsers`
- the edit target `editingUserId`
- the edit draft `editUser`
- the view selector `view`

Each awaited HTTP call (list, create, update) becomes a `Response` parameter, either `Success(data)` or `Failure`. Each event is applied whole, one after another.

Files:

- `outcomes.dfy` — `Option` (for `null`/`undefined`) and `Response` (the outcome of a remote call).
- `records.dfy` — `Record` (with the server's `_id`), the id-less `Form` drafts, and single-field updates.
- `record_lists.dfy` — the array operations the handlers use: `find` and `filter` keyed by name, `map` keyed by id, and the counting facts about them.
- `user_management.dfy` — the state, one function per handler, and `Step`. `Step` dispatches the on-screen actions; which actions are on screen is taken from the rendered markup.
- `lifecycle_properties.dfy` — properties that relate several calls: conservation, delete/restore as near-inverses, the invariants the local moves keep, edit and view behaviour, and three concrete scenarios (create, delete/restore, failed save).

Behaviour of the code worth knowing before reading the proofs:

- Cancelling an edit clears only the edit target. The edit draft is kept (`HandleCancelEdit`, `CancelKeepsDraft`).
- Soft-delete and restore do not move only the first match. `find` picks the first record with that name, but `filter` drops every record with that name. When k records share the name, k − 1 of them leave both lists (`HandleDeleteUser`, `DuplicateNameLosesRecord`).
- Duplicate names do not break the rule that no record is in both lists (`DeleteKeepsDisjoint`, `RestoreKeepsDisjoint`). What they break is conservation.
- Deleting a name that does not occur is not a no-op in the code, which appends `undefined`. This model requires the name to be present. That is what the only call sites guarantee (see Left out).

## Model

| member | source | states |
|---|---|---|
| RecordLists.FirstIndex | src/components/UserManagement.jsx:49 | the index of the first record with the name: no earlier record has it, the record at the index does, and the index is the length exactly when the name is absent |
| RecordLists.Find | src/components/UserManagement.jsx:49 | `find` by name returns `None` exactly when the name is absent; otherwise it returns a record of the list with that name and no earlier record has the name |
| RecordLists.WithoutName | src/components/UserManagement.jsx:50 | `filter` by name leaves no record with that name, and the length drops by exactly the number of matches |
| RecordLists.WithoutNameContents | src/components/UserManagement.jsx:50 | the filter drops every record with the name and keeps every other record exactly as many times as it occurred |
| RecordLists.WithoutNameAppend | src/components/UserManagement.jsx:50 | filtering a concatenation filters each part, so the survivors keep their relative order |
| RecordLists.WithoutAbsentName | src/components/UserManagement.jsx:50 | filtering a name that does not occur gives back the same list |
| RecordLists.WithoutNameIdempotent | src/components/UserManagement.jsx:50 | filtering the same name twice gives the same result as filtering it once |
| RecordLists.UniqueNameFilter | src/components/UserManagement.jsx:49-50 | with exactly one match, the filter removes just the record that `find` returns and keeps the rest in order |
| RecordLists.AppendFreshName | src/components/UserManagement.jsx:55-56 | a record appended under a name the list lacks is the first match, and filtering that name gives back the original list |
| RecordLists.CountWithoutName | src/components/UserManagement.jsx:50 | after the filter, the filtered name counts zero and every other name counts as before |
| RecordLists.ReplaceById | src/components/UserManagement.jsx:63 | the id-keyed `map` keeps the length; each position holds the response if its id matches and the old record otherwise |
| RecordLists.ReplaceByIdKeepsIds | src/components/UserManagement.jsx:63 | when the response carries the saved id, the list of ids does not change |
| RecordLists.ReplaceByIdIdempotent | src/components/UserManagement.jsx:63 | when the response carries the saved id, applying the same response twice is the same as applying it once |
| Records.Form.With | src/components/UserManagement.jsx:31-34 | the spread update sets exactly the named field to the value and keeps the other two fields |
| Records.FormOf | src/components/UserManagement.jsx:72 | the edit draft agrees with the record on name, email and mobile |
| Records.WithTwice | src/components/UserManagement.jsx:31-34 | setting the same field twice keeps only the later value |
| Records.WithCommutes | src/components/UserManagement.jsx:31-34 | changes to two different fields can be applied in either order |
| Records.WithSameValue | src/components/UserManagement.jsx:31-34 | writing back a field's current value leaves the draft unchanged |
| UserManagement.FetchUsers | src/components/UserManagement.jsx:20-27 | a successful load replaces `users` with the fetched list; a failed load changes nothing; `deletedUsers` and all other state are never touched |
| UserManagement.Mount | src/components/UserManagement.jsx:7-18 | after mount, the deleted list is empty, nothing is being edited, both drafts are empty, the view is the users table, and `users` is the fetched list (empty if the load failed) |
| UserManagement.HandleInputChange | src/components/UserManagement.jsx:29-35 | exactly the named field of the new-user draft takes the value; the other two fields and all other state stay as they were |
| UserManagement.HandleAddUser | src/components/UserManagement.jsx:37-46 | on success the created record is appended after the unchanged earlier records (the multiset grows by exactly that record) and the draft is cleared; on failure nothing changes, so the draft is kept; `deletedUsers` is never touched |
| UserManagement.HandleDeleteUser | src/components/UserManagement.jsx:48-52 | no record with the name remains active; the survivors are exactly the filtered list; the first match is appended to the deleted list; the combined size drops by (matches − 1); no record is invented; nothing else changes |
| RecordLists.MoveNeverInvents | src/components/UserManagement.jsx:49-51 | after moving the first match and filtering out all matches, the two lists together hold no record that was not already in one of them |
| UserManagement.HandleRestoreUser | src/components/UserManagement.jsx:54-58 | the mirror of soft-delete: no deleted record with the name remains; the first match returns to the end of `users`; the combined size drops by (matches − 1); nothing else changes |
| UserManagement.HandleEditUser | src/components/UserManagement.jsx:60-68 | on success the length is kept, rows with another id are unchanged, rows with this id become the response, and edit mode ends; on failure nothing changes, so the edit target survives |
| UserManagement.HandleStartEdit | src/components/UserManagement.jsx:70-73 | the target becomes the record's id, replacing any previous target; the edit draft agrees with the record on every field; nothing else changes |
| UserManagement.HandleEditInputChange | src/components/UserManagement.jsx:75-81 | exactly the named field of the edit draft takes the value; the other two fields and all other state stay as they were |
| UserManagement.HandleCancelEdit | src/components/UserManagement.jsx:83-85 | the edit target becomes null; the edit draft and everything else are kept |
| UserManagement.HandleViewChange | src/components/UserManagement.jsx:87-89 | sets the view and changes nothing else |
| UserManagement.Enabled | src/components/UserManagement.jsx:95-235 | which rendered element fires each event in each state; an enabled Delete or Restore passes a name its list holds, an enabled Save belongs to the row being edited, and the deleted view offers only the view buttons and Restore |
| UserManagement.Step | src/components/UserManagement.jsx:95-235 | every on-screen action other than add and save keeps both lists or only moves records between them, never inventing one; save keeps the length of `users`; add grows `users` by at most one; neither touches `deletedUsers` |
| LifecycleProperties.MovesConserveUniqueName | src/components/UserManagement.jsx:48-58 | when the name occurs exactly once in `users`, soft-delete keeps the combined size; when it occurs exactly once in `deletedUsers`, restore does |
| LifecycleProperties.DeleteKeepsUniqueNames | src/components/UserManagement.jsx:48-52 | soft-delete keeps names unique across both lists |
| LifecycleProperties.RestoreKeepsUniqueNames | src/components/UserManagement.jsx:54-58 | restore keeps names unique across both lists |
| LifecycleProperties.DeleteThenRestore | src/components/UserManagement.jsx:48-58 | for a uniquely named active record whose name is absent from the deleted list, delete then restore gives back the deleted list exactly and the same multiset of active records, with that record moved to the end |
| LifecycleProperties.RestoreThenDelete | src/components/UserManagement.jsx:48-58 | the mirror case: restore then delete gives back the active list exactly, with the record moved to the end of the deleted list |
| LifecycleProperties.DuplicateNameLosesRecord | src/components/UserManagement.jsx:49-51 | with two active records named "A", deleting "A" empties `users` and moves only the first, so the second record is in neither list |
| LifecycleProperties.DeleteKeepsDisjoint | src/components/UserManagement.jsx:48-52 | soft-delete never puts a record in both lists, even when names repeat |
| LifecycleProperties.RestoreKeepsDisjoint | src/components/UserManagement.jsx:54-58 | restore never puts a record in both lists, even when names repeat |
| LifecycleProperties.MountEstablishesInvariants | src/components/UserManagement.jsx:16-23 | after mount the lists are disjoint, and names are unique whenever the fetched list has unique names |
| LifecycleProperties.StepKeepsDisjoint | src/components/UserManagement.jsx:95-235 | every on-screen action keeps the two lists disjoint, provided a record the server returns from a create or an update is not already in the deleted list |
| LifecycleProperties.AddCanBreakDisjoint | src/components/UserManagement.jsx:37-46 | the proviso is needed: a create whose response is a record already in the deleted list puts that record in both lists |
| LifecycleProperties.AddThenDelete | src/components/UserManagement.jsx:37-52 | deleting a just-created record with a fresh name gives back the active list from before the add and puts the record at the end of the deleted list |
| LifecycleProperties.SaveKeepsIds | src/components/UserManagement.jsx:60-68 | a save whose response carries the saved id keeps every row's id, and saving the same response again changes nothing |
| LifecycleProperties.StartEditOverwrites | src/components/UserManagement.jsx:70-73 | starting a second edit drops the first target and draft completely |
| LifecycleProperties.CancelKeepsDraft | src/components/UserManagement.jsx:70-85 | start then cancel ends edit mode, keeps the draft copied from the record, and changes nothing else |
| LifecycleProperties.ViewChangeIdempotent | src/components/UserManagement.jsx:87-89 | switching to the same view twice is the same as switching once |
| LifecycleProperties.ScenarioCreate | src/components/UserManagement.jsx:29-46 | typing A / a@x.com / 1 and creating with server id "1" gives the one-record list, and the draft is cleared |
| LifecycleProperties.ScenarioDeleteRestore | src/components/UserManagement.jsx:48-58 | deleting the only record "A" gives `users` = [] and `deletedUsers` = [A]; restoring "A" goes back |
| LifecycleProperties.ScenarioEditFailure | src/components/UserManagement.jsx:60-81 | a failed save keeps `users`, the edit target "1" and the edited draft |

## Left out

- HTTP transport: the axios calls, `baseUrl` and `console.error` logging. Each call is replaced by the `Response` its await produces. What the server does with the request body (the new-user draft, or the edit draft) is not modelled, because the response is an arbitrary outcome.
- Async interleaving: handlers capture `users` at render time and write it back after `await`, so overlapping requests can lose updates. Each event is modelled as atomic.
- React mechanics: `useState`, `useEffect` and re-rendering. The mount hook is `Mount`, a single load applied to the initial state.
- Rendering and CSS: kept only as the `Enabled` predicate, which says which buttons and inputs are on screen.
- Browser form validation (`required`, `type="email"`): it is native input behaviour, not code of the component.
- UserManagement.HandleDeleteUser: requires the name to occur in `users`. For an absent name the source would append `undefined` to `deletedUsers`. Its only caller, the Delete button of a rendered row, always passes a present name; `Step` models that call site.
- UserManagement.HandleRestoreUser: requires the name to occur in `deletedUsers`, for the same reason, with the Restore button of a rendered deleted row as the only caller.
- UserManagement.HandleViewChange: the source takes any string and renders the deleted table for anything but `'users'`. Its only callers pass `'users'` or `'deletedUsers'`, so the view is a two-valued type.
- Server responses are taken as well-formed records. A response without `_id`, name, email or mobile is not modelled.
- LifecycleProperties.StepKeepsDisjoint: assumes that a record returned by a create or an update is not equal to a record in the deleted list. The component never checks this; `AddCanBreakDisjoint` shows the invariant fails without it.
