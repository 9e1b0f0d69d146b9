# User list component: a verified model of its state machine

The application is one React component, `App`, that keeps a list of user
records against a REST backend. It holds four state cells: `users`, the
form fields `name` and `email`, and `editingUserId`. Six handlers change
them: `fetchUsers`, `createUser`, `updateUser`, `deleteUser`, `editUser`,
`cancelEdit`. The form's submit picks between create and update. Without
the rendering and the `fetch` calls, each handler is a deterministic
transition on the four cells. The transition depends only on the outcome
of the request the handler awaits.

The model has four modules:

- `Js` (js.dfy) — the identifier values the code compares with `===`
  (`undefined`, `null`, strings, integers) and JavaScript truthiness.
- `Users` (users.dfy) — the record, with its two optional identifier
  fields. `id` is the field the update path matches on. `underscoreId` is
  the `_id` field, which edit and delete use. This module also holds the
  list transformations: `ReplaceMatching` (the `map` of the update path)
  and `RemoveMatching` (the `filter` of the delete path). Lemmas cover
  length, order, membership, idempotence, uniqueness of keys, and the fact
  that the filter is the only order-preserving selection with its
  properties.
- `Sync` (sync.dfy) — the four cells as a `State` value. Each handler is a
  pure transition. A network call is an `Outcome`: `Ok(body)` or `Fail`.
  Each submit handler also returns the `Request` payload it issued, if any.
  The lemmas state what the component promises: the empty-field guard,
  failures that change nothing, append, in-place replace, filter, the
  edit/cancel form mode, dispatch, and round trips.
- `Component` (component.dfy) — class `App` with the four cells as fields.
  Each handler is a method. It sets the cells one by one as the source's
  setters do, and modifies only the cells that handler sets. The method is
  proved to end in exactly the state its `Sync` transition gives.

JavaScript equality is modelled as it behaves. If a record has no `id`,
its `id` reads as `undefined`, and `undefined === undefined` is true. So
when the backend sends only `_id`, one successful update replaces every
listed record by the reply (`Sync.UpdateWithoutIdsReplacesAll`). Likewise,
a record without a truthy `_id` cannot be edited: after `editUser`, the
submit takes the create path and appends a new record
(`Sync.EditWithoutUnderscoreIdCreates`).

Where the code is more specific than a plain-language reading of the
design, the model follows the code:

- The update path is chosen when `editingUserId` is truthy, not merely
  present. An `_id` of `""` or `0` keeps the form in create mode.
- `editUser` takes the record's `_id`, while the update's reply is matched
  on `id`. An update can therefore give a replaced position a different
  `_id`. Uniqueness is proved for `id` across updates, and for both fields
  across loads, creates and deletes.

## Model

| member | source | states |
|---|---|---|
| `Js.FalsyValues` | src/App.js:97 | `undefined`, `null`, `""` and `0` are exactly the falsy identifier values |
| `Users.ReplaceMatching` | src/App.js:54-56 | length kept; each position whose `id` strictly equals the reply's `id` holds the reply, every other position keeps its record |
| `Users.RemoveMatching` | src/App.js:71 | no remaining record has the removed `_id`; the list never grows |
| `Users.Count` | src/App.js:71 | the number of records carrying an `_id` is at most the length, and 0 when none carries it |
| `Users.ReplaceWithoutMatch` | src/App.js:54-56 | a reply whose `id` matches no record leaves the list unchanged |
| `Users.ReplaceIdempotent` | src/App.js:54-56 | replacing twice with the same reply equals replacing once |
| `Users.ReplaceKeepsIds` | src/App.js:54-56 | no position's `id` changes, so unique `id`s stay unique |
| `Users.ReplaceAtMostOne` | src/App.js:54-56 | with unique `id`s, only the one position holding the reply's `id` changes |
| `Users.ReplaceAllWhenIdsMissing` | src/App.js:55 | when neither the reply nor any record has an `id`, every record becomes the reply |
| `Users.RemoveLength` | src/App.js:71 | the filter drops exactly as many records as carry the `_id` |
| `Users.RemoveIsSubsequence` | src/App.js:71 | what remains is a subsequence of the list, in original order |
| `Users.RemoveMembership` | src/App.js:71 | a record remains if and only if it was in the list and its `_id` differs |
| `Users.SubsequenceBound` | src/App.js:71 | any in-order selection avoiding the `_id` is no longer than what the filter keeps |
| `Users.RemoveIsTheFilter` | src/App.js:71 | an in-order selection that avoids the `_id` and drops only the records carrying it IS the filter's result |
| `Users.RemoveWithoutMatch` | src/App.js:71 | deleting an `_id` that no record has leaves the list unchanged |
| `Users.RemoveIdempotent` | src/App.js:71 | removing twice equals removing once |
| `Users.RemoveConcat` | src/App.js:71 | removal distributes over concatenation |
| `Users.AppendThenRemove` | src/App.js:36 | appending a record with a fresh `_id` and removing that `_id` gives back the list |
| `Users.RemoveKeepsUnique` | src/App.js:71 | removal keeps unique `id`s and unique `_id`s unique |
| `Users.AppendKeepsUnique` | src/App.js:36 | appending a record with a fresh key keeps keys unique |
| `Sync.IncompleteFormIsNoOp` | src/App.js:27 | with an empty name or email, create, update and submit issue no request and change none of the four cells |
| `Sync.CompleteFormSends` | src/App.js:30-34 | with both fields filled, create POSTs the fields and update PUTs them to `editingUserId` |
| `Sync.FailureChangesNothing` | src/App.js:17-75 | a failed load, create, update, delete or submit leaves all four cells as they were |
| `Sync.LoadInstalls` | src/App.js:19-20 | a successful load makes the list the server's list, element for element, and changes nothing else |
| `Sync.CreateAppends` | src/App.js:36-38 | a successful create adds one record at the end, keeps every earlier position, clears name and email, keeps `editingUserId` |
| `Sync.UpdateReplacesInPlace` | src/App.js:54-60 | a successful update keeps length; positions with the reply's `id` get the reply, all others are kept; the form and the edit target are cleared |
| `Sync.DeleteFilters` | src/App.js:71-72 | a successful delete keeps, in order, exactly the records whose `_id` differs; its length drops by the number removed; the form is untouched |
| `Sync.EditAndCancel` | src/App.js:78-88 | `editUser` copies name and email and targets the record's `_id`; `cancelEdit` clears all three; neither touches the list |
| `Sync.SubmitDispatch` | src/App.js:97-101 | create mode is exactly the four falsy `editingUserId` values; a request is issued exactly when the form is complete; it is a PUT exactly in edit mode (`editingUserId` truthy) and a POST otherwise |
| `Sync.ModeTransitions` | src/App.js:60-87 | load, create, delete and blocked or failed updates keep the form mode; cancel and a successful update return to create mode; `editUser` enters edit mode exactly when the `_id` is truthy |
| `Sync.EditWithoutUnderscoreIdCreates` | src/App.js:81 | editing a record without a truthy `_id` and submitting POSTs and appends the reply |
| `Sync.UpdateWithoutIdsReplacesAll` | src/App.js:55 | if the backend sends only `_id`, editing and submitting replaces every record by the reply |
| `Sync.UpdateChangesOnePosition` | src/App.js:54-57 | with unique `id`s, a successful update changes only the position holding the reply's `id` |
| `Sync.CreateThenDelete` | src/App.js:36 | creating a record with a fresh `_id` and then deleting that `_id` restores the list |
| `Sync.Idempotence` | src/App.js:71-88 | a second delete of the same `_id`, a second cancel, and a cancel after `editUser` change nothing more |
| `Sync.WellKeyedPreserved` | src/App.js:20-72 | unique `id` and `_id` survive load (given a unique list), create (given fresh keys), delete, edit and cancel; unique `id` survives update |
| `Component.App.constructor` | src/App.js:7-10 | starts with an empty list, empty form and `editingUserId` null |
| `Component.App.FetchUsers` | src/App.js:16-24 | changes only `users`, ending in `Sync.Load` of the old state |
| `Component.App.CreateUser` | src/App.js:26-42 | changes only `users`, `name`, `email`, ending in `Sync.Create`'s state and returning its request |
| `Component.App.UpdateUser` | src/App.js:44-64 | ends in `Sync.Update`'s state and returns its request |
| `Component.App.DeleteUser` | src/App.js:66-76 | changes only `users`, ending in `Sync.Delete` of the old state |
| `Component.App.EditUser` | src/App.js:78-82 | changes only the form cells, ending in `Sync.BeginEdit` of the old state |
| `Component.App.CancelEdit` | src/App.js:84-88 | changes only the form cells, ending in `Sync.CancelEdit` of the old state |
| `Component.App.Submit` | src/App.js:95-101 | ends in `Sync.Submit`'s state and returns its request |
| `Component.Session` | src/App.js:13 | the call to `fetchUsers` at mount, then load, create, edit and update, in sequence, leave the list replaced-by-`id` from the loaded list plus the created record, with the form reset |

## Left out

- Rendering, Bootstrap classes and the inputs' `onChange` bindings (src/App.js:90-175) are user interface. `Component.Session` sets the form cells directly where a user would type. The email input's `type="email"` (src/App.js:117) lets the browser block a submit with a malformed, non-empty email before `onSubmit` runs; `Sync.Submit` and `Component.App.Submit` model only submits that reach the handler.
- `fetch`, HTTP methods, headers, the URL and `response.json()` (src/App.js:4, 18-19, 30-35, 48-53, 68-70) are network I/O. Each awaited call is an `Outcome` parameter. Only the body's name and email and the PUT's target are kept, as the `Request` payload.
- HTTP status codes: the code never checks them, so any completed response is `Ok`.
- Overlapping requests and stale closures over `users`: concurrency. Each handler runs to completion atomically.
- The `useEffect` mechanism that runs `fetchUsers` once at mount (src/App.js:12, 14) is lifecycle; `Component.Session` models only the call itself (src/App.js:13). `console.error` logging (src/App.js:22, 40, 62, 74) and `console.error` logging is diagnostics.
- JavaScript numbers are modelled as integers, so floating point, `NaN` (falsy, and unequal to itself) and values that are not strings or numbers are left out of identifiers.
- A record's name and email are modelled as strings. A backend that sends a non-string, a missing field, or a load body that is not an array is not modelled.
- `Sync.Create`: a POST reply that is not a record (for example JSON `null`) is not modelled. The code would append it (src/App.js:36), and every later `user.id` or `user._id` read of it throws.
- `Sync.Update`: a PUT reply that is not a record (for example JSON `null`) is not modelled. On a non-empty list, reading `updatedUser.id` in the `map` (src/App.js:55) throws, and the catch leaves all four cells as `Fail` does. On an empty list the form is cleared without error.
- `Sync.WellKeyedPreserved`: does not claim `_id` uniqueness after an update, because the reply's `_id` is never checked against the list.
