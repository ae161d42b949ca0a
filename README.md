# Study Roulette: the choice-list state machine

Study Roulette is a one-page React app: the user types study topics into a
list, the list is kept in the browser's `localStorage`, and once there are at
least two entries a third-party spinning wheel picks one. This project models
the only logic in it, the state of the `App` component in `src/App.tsx`:

- `ChoiceList` (`choice_list.dfy`) holds the pure list computations. `Find`
  is `Array.prototype.find`. `IsDuplicate` is the guard of `handleAddChoice`,
  which tests the element `find` returns for truthiness. `RemoveAt` is the
  `filter` by index of `handleRemoveChoice`. Lemmas about them follow.
- `StudyRoulette` (`app.dfy`) holds class `App`. Its fields are the three
  `useState` values (`choices`, `currentChoice`, `hasDuplicate`), the storage
  `store` (a map from key to an already-decoded list; the key is `"choices"`)
  and `pendingClears`, the number of scheduled 2-second clears of the
  duplicate flag. Each event handler is one method, one atomic step.
- `Scenarios` (`scenarios.dfy`) are client runs proved from the handlers'
  contracts alone. `Mount` shows that the first render and the mount effect
  leave memory and storage in step over any storage; `Reload` shows that a
  new mount over a synced app's storage reads back its list; `AddThenRemove`
  shows that removing what an add appended restores list and storage. `DistinctSession`
  runs handlers on a mounted app and keeps both invariants and distinctness.
  The concrete runs are the "Linux"/"Docker" session, a reload that reads the
  list back in order, and the empty-text quirk.

Two quirks of the code are reproduced, not corrected:

1. `find` returns the matched element, and `""` is falsy, so the empty string
   is never reported as a duplicate (`IsDuplicate`, `EmptyTextRepeats`).
2. Enter calls `handleAddChoice` directly, skipping the "disabled while
   empty" guard of the Add button (`OnKeyDown` versus `ClickAdd`). So `""`
   can be appended, repeatedly.

The disabled Add button and the duplicate message suggest non-empty,
duplicate-free entries, but the code enforces neither. The model follows the
code. What holds is `DistinctNonEmpty`: no two equal entries other than `""`.
It is not an invariant of `App` either, because the mount effect adopts
whatever storage holds. Each handler keeps it when it held before.

The memory/storage invariant `App.Synced` is this: either the key holds
exactly `choices`, or the key is absent and `choices` is empty. The mount
effect establishes it from the initial state. An accepted add, every remove
and every clear establish it; a rejected add keeps it. Every other handler
keeps it. `App.FlagWillClear` is the second
invariant: a raised duplicate flag always has a clear pending.

## Model

| member | source | states |
|---|---|---|
| ChoiceList.Find | src/App.tsx:19 | `find` with `===` yields something exactly when the target is in the list, and what it yields is the target |
| ChoiceList.IsDuplicate | src/App.tsx:19 | the add guard fires iff the input is non-empty and already in the list; the empty input never fires it |
| ChoiceList.RemoveAt | src/App.tsx:38 | filtering out position `index` gives the list without that position, order kept; an index outside the list (negative included) gives the list unchanged |
| ChoiceList.AddResult | src/App.tsx:19-26 | the list after an add: unchanged on a duplicate, otherwise the old list with the input appended at the end |
| ChoiceList.AddKeepsDistinct | src/App.tsx:19-26 | an add keeps "no two equal non-empty entries" |
| ChoiceList.RemoveKeepsDistinct | src/App.tsx:37-41 | a removal keeps "no two equal non-empty entries" |
| ChoiceList.RemoveUndoesAdd | src/App.tsx:26-38 | removing the position an accepted add just filled gives back exactly the prior list |
| ChoiceList.SecondAddRejected | src/App.tsx:19-29 | adding the same text twice in a row, from any list: the second add is rejected iff the text is non-empty, and the list grows the second time only for `""` |
| ChoiceList.EmptyTextRepeats | src/App.tsx:19-26 | when `""` is already listed, adding `""` appends it again, so the list holds two equal entries |
| StudyRoulette.App.constructor | src/App.tsx:6-8 | the first render: empty list, empty input, flag down, storage as given, no clear pending |
| StudyRoulette.App.Load | src/App.tsx:11-16 | the mount effect adopts the stored list when the key is present and changes nothing else; from the initial empty list it establishes `Synced` |
| StudyRoulette.App.AddChoice | src/App.tsx:18-30 | on a duplicate: flag raised, one clear scheduled, list, storage and input unchanged; otherwise: input appended, storage key set to the new list, input emptied, flag untouched; keeps `Synced`, `FlagWillClear` and `DistinctNonEmpty` |
| StudyRoulette.App.ClearChoices | src/App.tsx:32-35 | the list is empty and the storage key is deleted whatever the prior size; nothing else changes |
| StudyRoulette.App.RemoveChoice | src/App.tsx:37-41 | the list loses exactly position `index` (unchanged when out of range), storage is always rewritten with the result, input and flag untouched; establishes `Synced` |
| StudyRoulette.App.OnInputChange | src/App.tsx:64-67 | editing the input lowers the flag and takes the new text; list and storage unchanged |
| StudyRoulette.App.OnKeyDown | src/App.tsx:68-72 | Enter performs exactly an add, with no guard on an empty input; any other key changes nothing |
| StudyRoulette.App.ClickAdd | src/App.tsx:74-78 | the Add button acts only on a non-empty input, so it never adds an empty entry |
| StudyRoulette.App.TimerFires | src/App.tsx:21-23 | a scheduled clear lowers the flag and changes nothing else |
| StudyRoulette.App.SpinWheelItems | src/App.tsx:118-121 | the wheel is offered iff the list has at least two entries, and it is offered exactly the current list |
| Scenarios.Mount | src/App.tsx:6-16 | the first render followed by the mount effect, over any storage, yields a new `App` satisfying `Valid` (memory and storage in step, no flag raised), on which any session of handlers can run |
| Scenarios.Reload | src/App.tsx:11-16 | remounting over the storage of any synced app reads back exactly its list, in order, in a new `App` satisfying `Valid` |
| Scenarios.AddThenRemove | src/App.tsx:26-41 | an accepted add followed by removal at the old length restores the list and its stored copy |

## Left out

- JSX layout, styling, the CSS import, and the visibility of the messages and of the list panel: presentation only.
- `SpinWheel` from `react-spin-wheel`, its random pick and the `alert` on finish: a foreign library and a UI side effect. Only the two-entry gate is modelled, so uniform selection is not.
- Real time: `setTimeout` is a counter of pending clears, and `TimerFires` runs one of them. Which clear runs when is not modelled.
- `JSON.stringify`/`JSON.parse`: storage holds decoded lists. So the crash on malformed stored text is not modelled. The effect's truthiness test becomes key presence, because stored list text is never empty.
- Storage reads and writes are assumed to succeed; their exceptions (a full quota, disabled storage), and the memory/storage split a failed write would leave, are not modelled.
- Other writers of `localStorage`: another tab or window of the same origin shares it, and the app does not listen for `storage` events. `store` is written only by this `App`, so `Synced` and `Reload` assume a single writer.
- Storage keys other than `"choices"` are carried through untouched but never read.
- React rendering and batching: each handler is one atomic step over the current state.
