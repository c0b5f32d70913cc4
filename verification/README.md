# Baen Holdings companion: roster store

This project models the roster store of the Baen Holdings companion, a one-page
browser tool for a tabletop campaign. The store holds a fixed roster of businesses.
Each business has an append-only list of narrative actions.
Beside the roster sits a single-slot undo buffer.
Three event handlers change the store:

- `assignAction` appends a Pending action to a business. An empty text is ignored.
- `resolveAction` asks the user for confirmation. If the user agrees, it saves the
  targeted action and its coordinates in the undo slot, then overwrites the action's status.
- `undoLast` writes the saved action back at its coordinates and empties the slot.

Layout:

- `wrappers.dfy`: module `Wrappers`, the `Option` type.
- `roster_model.dfy`: module `RosterModel`. The records (`Business`, `Action`,
  `Status`, `UndoRecord`, `State`), the seed roster, and the three operations as
  functions from the old store state to the new one.
- `roster_props.dfy`: module `RosterProps`. The properties that relate several
  operations: the undo round trip, the one-shot and single-slot undo, the status
  life cycle, and invariants kept over any sequence of user operations (`Op`, `Run`).
- `roster_store.dfy`: module `RosterStore`. The class `Store` holds the roster and
  the undo slot as mutable fields. Its handlers update them in place and are
  proved against the `RosterModel` functions. A client method replays the worked
  example: assign "Audit Finances", confirm a Success, undo.

External inputs are parameters:

- the answer to the `window.confirm` prompt is the `confirmed: bool` argument of `ResolveAction`;
- the date from `new Date().toLocaleDateString()` is the `date: string` argument of `AssignAction`;
- the snapshot read from local storage is the `saved: Option<Roster>` argument of the
  constructor and of `Initial` (`None` means nothing was saved).

Caller contracts become `requires` clauses. The JavaScript leaves index validity to
the interface, and an out-of-range index would throw. In `resolveAction` with an
existing business but an out-of-range action index, the throw comes only after the
undo slot was set to an empty record with those out-of-range coordinates
(src/App.jsx:73-75), so the throw can leave that record behind; the preconditions
exclude that call, which the interface never makes. The interface offers the
resolve buttons only on Pending actions (src/App.jsx:138-143). So
`Store.ResolveAction` and `RosterProps.Enabled` require an existing, Pending action.
The value-level `RosterModel.ResolveAction` requires only that the action exists,
as the handler itself does.

Action statuses are the three-valued datatype `Status`. The JavaScript stores
the strings "Pending", "Success" and "Failure"; the handler assigns whatever
`result` string it receives, and the interface passes only the last two.

## Model

| member | source | states |
|---|---|---|
| RosterModel.DefaultBusinesses | src/App.jsx:3-37 | The seed roster has three businesses with distinct ids, empty action lists, loyalty in 0..10 and threat in 0..5. |
| RosterModel.Initial | src/App.jsx:46-51 | At start-up the undo slot is empty. A saved snapshot becomes the roster as it is; with none, the roster is exactly the seed (three businesses, distinct ids). |
| RosterModel.AssignAction | src/App.jsx:57-67 | Empty text leaves the store unchanged. Otherwise the target list grows by exactly one: the old actions stay as its prefix, and the new last element is (text, Pending, date, empty notes). Other businesses and the undo slot are unchanged. The roster keeps its shape and the undo slot stays in range. |
| RosterModel.ResolveAction | src/App.jsx:69-77 | A declined confirmation changes nothing. A confirmed one sets the undo slot to (prior action, b, a), replacing what it held. Only that action's status changes, to `result`. Text, date and notes are kept, and every other action and business is unchanged. |
| RosterModel.UndoLast | src/App.jsx:79-86 | An empty slot is a no-op. Otherwise the saved action is back at its coordinates, the rest of the roster is unchanged and the slot is empty. |
| RosterProps.ResolveThenUndo | src/App.jsx:69-86 | A confirmed resolve followed by undo gives back exactly the pre-resolve roster, with an empty undo slot. |
| RosterProps.DeclinedResolveLeavesNoUndo | src/App.jsx:70-71 | A declined resolve leaves no undo record: a following undo acts exactly as if the resolve never happened. |
| RosterProps.UndoIsOneShot | src/App.jsx:80-85 | A second consecutive undo changes nothing. |
| RosterProps.SecondResolveOverwritesUndo | src/App.jsx:74-83 | After two confirmed resolves, one undo returns to the state right after the first resolve. The first resolution stays in place, and a further undo changes nothing. |
| RosterProps.Step | src/App.jsx:57-86 | Each user operation the interface offers (an existing business; an existing Pending action resolved to Success or Failure) keeps the undo coordinates in range. It keeps the number of businesses and every non-action field, and it never shortens an action list. |
| RosterProps.RunKeepsShape | src/App.jsx:57-86 | The same holds over any feasible sequence of operations, proved by induction on the sequence. |
| RosterProps.SeedInvariants | src/App.jsx:3-86 | From the seed, after any feasible sequence of operations, there are three businesses with distinct ids and on-scale loyalty and threat, and the undo slot names an existing action. |
| RosterProps.OnlyTargetChanges | src/App.jsx:69-86 | In one step, an action changes only if a confirmed resolve targeted it, in which case it was Pending and only its status became the result. The other case is that the undo slot named it, in which case it became the saved action. |
| RosterProps.AuditFinancesScenario | src/App.jsx:57-86 | On the seed, assigning "Audit Finances" to business 0 gives one Pending action. Confirming Success makes it Success, and undo makes it Pending again with an empty slot. Assigning empty text to business 1 leaves its list empty. |
| RosterStore.Store.constructor | src/App.jsx:46-51 | The store starts as `Initial(saved)`: the saved roster or the seed, with an empty undo slot. |
| RosterStore.Store.AssignAction | src/App.jsx:57-67 | The in-place update leaves the store equal to `RosterModel.AssignAction` of its old value and keeps the undo slot in range. |
| RosterStore.Store.ResolveAction | src/App.jsx:69-77 | For an existing Pending action, the in-place update leaves the store equal to `RosterModel.ResolveAction` of its old value and keeps the undo slot in range. |
| RosterStore.Store.UndoLast | src/App.jsx:79-86 | The in-place update leaves the store equal to `RosterModel.UndoLast` of its old value and keeps the store invariant. |

## Left out

- Rendering, tab switching, the custom-action text box and the "gm" placeholder view (src/App.jsx:88-168): presentation only.
- Loading from and saving to local storage, and the JSON encoding (src/App.jsx:47-48, 53-55): browser I/O. The load is a constructor parameter. The save mirrors every change and does not affect the store, so the serialization round trip is not modelled. The parse is unguarded, so a malformed snapshot makes the page throw instead of falling back to the seed.
- `window.confirm` and `new Date().toLocaleDateString()`: foreign calls, taken as parameters.
- React state semantics: the handlers copy the roster array shallowly, so the previous state's business objects are mutated too. The model keeps a single mutable roster of values and does not capture that aliasing.
- The distinct-id invariant holds for the seed and is kept by every operation (`RosterProps.SeedInvariants`). A snapshot loaded from storage is not checked for it, and neither does the source check it.
