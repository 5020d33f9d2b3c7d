# User directory component — a Dafny model

This project models the state logic of the `UserManagement` React component. The component shows
a directory of user records fetched from a remote REST collection. An operator can search the
directory by name, delete a record, edit a record's name, email and city, and create a new record.

The model has two layers:

- **List transforms** are pure functions over `seq<User>` (module `Directory`). They are the
  search filter, remove-by-id, the replace-by-id merge of an edit, and append. The filter is one
  generic `Filter`, the counterpart of `Array.prototype.filter`, proved once: it keeps exactly
  the elements that pass, with their multiplicities and in their original order. Lower-casing and
  `includes` are in module `Text`.
- **Handler state** is a class (`Component.UserManagement`) with the component's state variables
  as fields: `users`, `searchInput`, `editFormValues`, `createFormValues`, `showEditForm` and
  `showCreateForm`. Each handler is a method. Its `ensures` gives the whole new state as the old
  state with only the handler's fields replaced. A handler that calls the remote gateway takes
  the outcome as parameters: a `success` flag and the data the server answered with (the fetched
  list, or the created record). It returns the `Request` it sends: list, create, update or delete.
  On failure the source only logs, so the model leaves the state exactly as it was.

Modules: `Users` (records, identifiers), `Text`, `Directory`, `Forms` (the two drafts, seeding the
edit draft, writing a field), `Component` (the class) and `Scenarios` (client scenarios).

Behaviour of the component that the model keeps as it is:

- The handlers do not check that fields are non-empty; only the inputs' `required` attributes do,
  so the handlers accept any draft.
- The `map` at line 72 patches every record carrying the target id, and so does `MergeEdit`.
- Drafts are never reset after a submit. The draft keeps its values, and only the form's
  visibility flag changes.
- `[...users, createdUser]` appends without checking the id, so the created id occurs exactly once
  only when it was new (`AppendCountsCreatedOnce`).
- `searchUsers` filters a freshly fetched list, not the current `users`, so the fetched list is a
  parameter of `SearchUsers`.

## Model

| member | source | states |
|---|---|---|
| `Text.LowerChar` | src/components/UserManagement.js:40 | the lowered character is never upper-case; upper-case ASCII letters move to lower case, every other character is kept |
| `Text.Lower` | src/components/UserManagement.js:40 | `toLowerCase` keeps the length and lowers every character in place |
| `Text.LowerIdempotent` | src/components/UserManagement.js:40 | lowering twice equals lowering once |
| `Text.Includes` | src/components/UserManagement.js:40 | `includes` is true exactly when the query occurs at some index of the name |
| `Text.IncludesEmpty` | src/components/UserManagement.js:40 | every string includes the empty string |
| `Directory.Filter` | src/components/UserManagement.js:39-41 | the result holds exactly the elements that pass, each as often as in the input, in their original order, and is no longer than the input |
| `Directory.FilterAllPass` | src/components/UserManagement.js:39-41 | when every element passes, filtering returns the input unchanged |
| `Directory.SearchFilter` | src/components/UserManagement.js:38-42 | the search keeps exactly the fetched users whose lower-cased name includes the lower-cased query, with their multiplicities, as a subsequence of the fetched list |
| `Directory.SearchEmptyQueryKeepsAll` | src/components/UserManagement.js:39-41 | an empty query keeps the whole fetched list, in order |
| `Directory.SearchIgnoresQueryCase` | src/components/UserManagement.js:40 | a query and its lower-cased form select the same users |
| `Directory.SearchKeepsUniqueIds` | src/components/UserManagement.js:39-42 | if the fetched ids are unique, the searched list's ids are unique too |
| `Directory.RemoveById` | src/components/UserManagement.js:51 | after a delete no record carries the id; every other record stays, with its multiplicity and order; the list shrinks by the number of records that carried the id |
| `Directory.RemoveAbsentIsIdentity` | src/components/UserManagement.js:51 | deleting an id that is not in the list leaves the list unchanged |
| `Directory.RemoveUniqueShrinksByOne` | src/components/UserManagement.js:50-51 | with unique ids, deleting a present id removes exactly one record and keeps the ids unique |
| `Directory.SetCity` | src/components/UserManagement.js:72 | the merged address has the form's city and keeps the other address keys; a missing address contributes no keys |
| `Directory.MergeEdit` | src/components/UserManagement.js:71-73 | the length is unchanged; records whose id is not the target are unchanged; records with the target id get the form's name, email and city, and keep their id, other fields and other address keys |
| `Directory.MergeEditKeepsIds` | src/components/UserManagement.js:71-73 | the merge keeps the set of ids, and keeps them unique if they were |
| `Directory.MergeEditIdempotent` | src/components/UserManagement.js:71-73 | merging the same edit twice gives the same list as merging it once |
| `Directory.MergeEditAbsentIsIdentity` | src/components/UserManagement.js:71-73 | when no record has the target id, the merge changes nothing |
| `Directory.Append` | src/components/UserManagement.js:93 | the created record goes last, the previous list is an unchanged prefix, and the id set gains the created id |
| `Directory.AppendCountsCreatedOnce` | src/components/UserManagement.js:91-93 | the created id occurs once more than before, so exactly once when the server's id was new |
| `Directory.AppendUniqueIff` | src/components/UserManagement.js:93 | for a list with unique ids, appending keeps them unique if and only if the created id was absent |
| `Forms.WriteEdit` | src/components/UserManagement.js:101-104 | writing a field into the edit draft sets that field, leaves the other fields and the target id unchanged |
| `Forms.WriteCreate` | src/components/UserManagement.js:105-108 | writing a field into the create draft sets that field and leaves the other fields unchanged |
| `Forms.WriteEditLaws` | src/components/UserManagement.js:101-104 | writing back a field's own value changes nothing; of two writes to one field the last one wins |
| `Forms.CityOrEmpty` | src/components/UserManagement.js:62 | the seeded city is the address's city, or "" when the address or its city is missing |
| `Forms.SeedEditDraft` | src/components/UserManagement.js:58-63 | the edit draft copies the user's id, name and email, and takes its city from `CityOrEmpty` |
| `Forms.UntouchedEditRoundTrip` | src/components/UserManagement.js:57-73 | seeding the draft from a user and merging it back unchanged leaves that user's record as it was if it has a city; otherwise the record gains an address whose city is "" |
| `Component.UserManagement.constructor` | src/components/UserManagement.js:5-19 | the first state: no users, empty search box, empty drafts with a null target id, both forms closed |
| `Component.UserManagement.GetUsers` | src/components/UserManagement.js:27-34 | sends a list request; on success the fetched list becomes `users`; on failure nothing changes |
| `Component.UserManagement.SetSearchInput` | src/components/UserManagement.js:119 | only the search text changes |
| `Component.UserManagement.SearchUsers` | src/components/UserManagement.js:36-46 | sends a list request; on success `users` becomes the search filter of the fetched list by the current search text; on failure nothing changes |
| `Component.UserManagement.DeleteUser` | src/components/UserManagement.js:48-55 | sends a delete for the id; on success `users` becomes `RemoveById` of the old list; on failure nothing changes |
| `Component.UserManagement.HandleEdit` | src/components/UserManagement.js:57-65 | the edit draft is seeded from the user and the edit form opens; nothing else changes |
| `Component.UserManagement.HandleEditSubmit` | src/components/UserManagement.js:67-79 | sends an update carrying the draft's target id and the draft; on success `users` becomes the merge of the draft and the edit form closes; on failure nothing changes |
| `Component.UserManagement.OpenCreateForm` | src/components/UserManagement.js:125 | only the create form's visibility changes, to open |
| `Component.UserManagement.HandleCreateSubmit` | src/components/UserManagement.js:81-98 | posts the draft's name, email and city; on success the server's record is appended and the create form closes; on failure nothing changes |
| `Component.UserManagement.HandleChange` | src/components/UserManagement.js:100-109 | the same value is written under the same field into both drafts, whichever form raised the change; nothing else changes |
| `Scenarios.SearchLeanneExample` | src/components/UserManagement.js:39-41 | searching "leanne" over "Leanne Graham" and "Ervin Howell" keeps only "Leanne Graham" |

The methods `Scenarios.CreateThenDelete` and `Scenarios.DeleteThenEdit` are clients. They show
that the handler contracts alone determine a run: a create on an empty directory, a failed delete
and a successful one, and a delete followed by an edit.

## Left out

- HTTP transport: the collection URL, axios, response parsing, status codes. Each call is a
  `success` flag plus the server's data, and the handler returns the `Request` it would send.
- The mount-time `useEffect` that calls `getUsers`, and all rendering and styling.
  `GetUsers` models the handler itself.
- The `required` and `type="email"` attributes on the inputs. The browser enforces them, not the
  component.
- Overlapping requests and which response lands last. Each handler runs to completion.
- `console.error` logging on failure.
- Text.Lower: lower-cases ASCII letters only, not the full Unicode mapping of `toLowerCase`.
- `Forms.Field` holds only `name`, `email` and `city`, the only input names in the markup. A change
  event with any other key is not modelled. The second argument to `handleChange` is ignored by
  the source, so the model has no such parameter.
- A record whose `name` is not a string makes the filter throw inside `searchUsers`. The catch
  then leaves the state unchanged. The model types `name` as a string, so this path is absent.
- Keys of a record or of its address other than the ones the component reads are kept in `rest`
  as string values only; nested values under such keys (`company`, `geo`) are abstracted away.
  Every transform passes `rest` through untouched.
- JavaScript's loose values: ids are integers compared by value. A city is a string, missing or
  null (`None`). Other falsy values that `|| ''` would also replace are not modelled.
- Id uniqueness is not assumed by any handler. The lemmas that mention it take it as a
  hypothesis, because the component never checks it.
