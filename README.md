# Food dashboard list synchronizer, in Dafny

This project models the `Dashboard` page of a food-menu admin app. The page
keeps two pieces of state:

- `foods`, the ordered list of menu items (`IFoodPlate` records);
- `editingFood`, the record that is open in the edit form.

Its handlers keep that list in step with a REST backend at `/foods`:

- load the whole list on mount;
- add a record;
- update the record being edited;
- replace a record when its availability switch is flipped;
- delete by id;
- choose the record to edit.

Each HTTP call is replaced by a parameter that holds the server's answer.
That answer is `Some(record)` or `Some(list)`, or `None` when the request
failed. For a delete it is a flag `ok`. On failure, every handler leaves the
state as it was. For create this is because the error is caught and logged.
For the other handlers it is because the failure escapes before `setFoods`
runs.

Files:

- `wrappers.dfy` (module `Wrappers`): the `Option` type.
- `foods.dfy` (module `Foods`): the record and the draft the forms hand over.
  It also holds the request bodies, and the list operations the handlers use:
  `findIndex` (`FindIndex`), copy-then-overwrite-one-slot (`ReplaceById`) and
  `filter` by id (`RemoveId`), with lemmas about them.
- `sync.dfy` (module `Sync`): each handler as a pure transition `Step` on a
  `State(foods, editing)`, and runs of transitions (`Run`). It proves that ids
  stay unique when the server behaves like a store keyed by id.
- `dashboard.dfy` (module `DashboardPage`): the component as a class
  `Dashboard` with fields `foods: seq<Food>` and `editingFood: Option<Food>`.
  Each handler is a method that returns the request it sends and updates the
  fields. Every method is proved equal to `Sync.Step` on the old state. The
  update and toggle handlers copy the list into a fresh array and overwrite
  one slot, as the source does (`CopyAndWrite`).

Two edge cases of JavaScript are modelled explicitly:

- When no record has the id, `findIndex` gives -1, and `updated[-1] = x` does
  not touch any element of the array. So "id not found" leaves the list
  unchanged.
- `editingFood` starts as an empty object. Here it is `None` until
  `handleEditFood` runs.

## Model

| member | source | states |
|---|---|---|
| `Foods.CreateBody` | src/pages/Dashboard/index.tsx:42-48 | the create request carries exactly the draft's name, image, price and description, and `available` is always true |
| `Foods.UpdateBody` | src/pages/Dashboard/index.tsx:62-66 | the update body takes `id` and `available` from the record being edited and the other four fields from the draft; submitting an unchanged draft sends the edited record itself |
| `Foods.FindIndex` | src/pages/Dashboard/index.tsx:70 | the result is -1 exactly when no record has the id; otherwise it is the first index whose record has the id |
| `Foods.ReplaceById` | src/pages/Dashboard/index.tsx:70-74 | the length is kept; the slot at the first matching index becomes the server's record; every other slot is unchanged; an absent id leaves the list unchanged |
| `Foods.ReplaceByIdUnique` | src/pages/Dashboard/index.tsx:70-76 | with unique ids, exactly the record that has the id is replaced, and every record with another id stays |
| `Foods.ReplaceByIdKeepsUnique` | src/pages/Dashboard/index.tsx:83-89 | replacing by a record that keeps the addressed id keeps the ids unique |
| `Foods.RemoveId` | src/pages/Dashboard/index.tsx:96 | a record survives the filter if and only if it was in the list and its id differs from the target; the list never grows |
| `Foods.RemoveIdAbsent` | src/pages/Dashboard/index.tsx:96 | deleting an id that no record has leaves the list unchanged |
| `Foods.RemoveIdConcat` | src/pages/Dashboard/index.tsx:96 | the filter distributes over concatenation, so survivors keep their relative order |
| `Foods.RemoveIdIsSubsequence` | src/pages/Dashboard/index.tsx:96-98 | the list after a delete is a subsequence of the list before it |
| `Foods.RemoveIdKeepsUnique` | src/pages/Dashboard/index.tsx:92-98 | deleting keeps the ids unique |
| `Foods.RemoveIdUnique` | src/pages/Dashboard/index.tsx:92-98 | with unique ids, deleting a present id removes exactly the one record at its index; the list shrinks by one and keeps the others in order |
| `Foods.RemoveIdAt` | src/pages/Dashboard/index.tsx:96 | when the record at an index is the only one with the id, deleting the id drops exactly that slot and keeps the rest in order |
| `Foods.RemoveIdSplit` | src/pages/Dashboard/index.tsx:96 | when only the middle record has the id, filtering drops just that record |
| `Foods.AppendKeepsUnique` | src/pages/Dashboard/index.tsx:50-52 | appending a created record whose id is new keeps the ids unique |
| `Sync.Initial` | src/pages/Dashboard/index.tsx:23-24 | the page starts with an empty list and an empty editing slot |
| `Sync.Step` | src/pages/Dashboard/index.tsx:28-113 | a failed request changes nothing; only choosing a record to edit changes the editing slot, and that does not touch the list |
| `Sync.AddAppends` | src/pages/Dashboard/index.tsx:50-52 | a successful add gives length old+1, the old list as prefix, and the server's record last |
| `Sync.DeleteRemoves` | src/pages/Dashboard/index.tsx:94-98 | after a successful delete no record has the id, the survivors are a subsequence of the old list, and deleting an absent id changes nothing |
| `Sync.StepKeepsUnique` | src/pages/Dashboard/index.tsx:28-99 | each handler keeps the ids unique when the server's reply is consistent with a store keyed by id |
| `Sync.RunKeepsUnique` | src/pages/Dashboard/index.tsx:28-99 | over any sequence of handler calls with consistent replies, the list never holds two records with the same id |
| `Sync.FailedRunUnchanged` | src/pages/Dashboard/index.tsx:41-98 | any number of failed requests leave the state as it was |
| `DashboardPage.CopyAndWrite` | src/pages/Dashboard/index.tsx:72-74 | copying into a fresh array and writing one slot keeps the length and changes only that slot; index -1 changes nothing |
| `DashboardPage.Dashboard.constructor` | src/pages/Dashboard/index.tsx:23-24 | the component starts in `Sync.Initial()` |
| `DashboardPage.Dashboard.LoadFoods` | src/pages/Dashboard/index.tsx:28-33 | on success the fetched list replaces `foods` in server order; on failure nothing changes |
| `DashboardPage.Dashboard.HandleAddFood` | src/pages/Dashboard/index.tsx:38-56 | the request has the draft's fields and `available` true; on success the list grows by one, keeps the old list as prefix and ends with the server's record; on failure it is unchanged |
| `DashboardPage.Dashboard.HandleUpdateFood` | src/pages/Dashboard/index.tsx:58-77 | the request is addressed to the editing record's id and carries its id and availability with the draft's fields; the new state is `Sync.Step` of the old one |
| `DashboardPage.Dashboard.HandleChangeAvailable` | src/pages/Dashboard/index.tsx:79-90 | the record is sent exactly as given, with `available` not flipped; on success the first record with its id becomes the server's record; otherwise the list is unchanged |
| `DashboardPage.Dashboard.HandleDeleteFood` | src/pages/Dashboard/index.tsx:92-99 | the delete is addressed to the id; on success a record stays if and only if its id differs; on failure the list is unchanged |
| `DashboardPage.Dashboard.HandleEditFood` | src/pages/Dashboard/index.tsx:109-113 | the editing slot holds the given record and `foods` is unchanged |

## Left out

- HTTP transport (`api.get`, `api.post`, `api.put`, `api.delete` in `src/services/api`): this module is not part of this model. Each call's outcome is a parameter of the handler, either the server's answer or a failure.
- `async`/`await`, React's `useState` batching, the `useEffect` mount timing, and races between two requests in flight. The model runs the handlers one after another, each against the state left by the previous one.
- The asymmetry in error handling: `handleAddFood` catches and logs, while the other handlers let the rejection escape. The state is the same in both cases (unchanged), so the model has no error value and no logging.
- The modal flags `modalOpen` and `editModalOpen`, `toggleModal`, `toggleEditModal`, the `toggleEditModal()` call inside `handleEditFood`, and all JSX rendering and child components: these are presentation only.
- DashboardPage.Dashboard.HandleUpdateFood: with an empty editing slot, the source still sends `PUT /foods/undefined` with a body whose `id` and `available` are undefined. The model returns no request in that case. The list stays unchanged either way, because `findIndex` matches no record against `undefined`.
- Extra keys in the draft object are not modelled. At runtime, the spread `...food` would let such keys override `id` and `available`. The draft's type rules them out, and the model follows the type.
- `price` stays text and is never parsed, as in the source.
- The id must be a number. A server that returns a string id would break `===` matching in the source, and the model cannot express that case.
