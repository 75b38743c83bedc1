# Memo app — a Dafny model

This project models the logic of a small single-page memo app written in
React and TypeScript. The app keeps an ordered list of memos. Each memo has an
id, some content and two timestamps. The list is mirrored to one browser
storage key. Users add memos through a form and edit or delete them through
per-memo items.

Modules:

- `Wrappers`: `Option` and `Result`.
- `Text`: ECMAScript's `String.prototype.trim`. It strips WhiteSpace and
  LineTerminator code points, as defined in sections 12.2 and 12.3 of
  ECMA-262. The module proves that `Trim` is the unique trimmed slice left
  after cutting off a blank prefix and a blank suffix.
- `MemoStore` (`src/App.tsx`): the memo record and the three list transitions.
  Add prepends, update is a map and delete is a filter. It also holds the
  fail-soft load from storage and the write-through effect.
- `MemoForm` (`src/components/MemoForm.tsx`): the draft-input state machine
  of the new-memo form and its disabled-button rule.
- `MemoItem` (`src/components/MemoItem.tsx`): the per-memo editor state
  machine. It covers edit, change, save, cancel, key handling and
  confirmed delete. It also covers the "(edited)" marker, which is rendered
  only in view mode.
- `MemoApp`: the three components put together.
  - Content reaches the list only through the form and the items. So a list
    that starts clean stays clean: every content is non-empty and trimmed.
  - The storage slot always holds the serialisation of the current list.
  - Reopening the app restores the list.

The clock, the id source, browser storage and JSON are parameters:

- `now` is `Date.now()`, which is also the new memo's id.
- `nowIso` is `new Date().toISOString()`.
- The stored value is an `Option<string>`.
- `JSON.parse` is a `parse` function returning a `Result`.
- `JSON.stringify` is a `serialize` function.
- `window.confirm` becomes the boolean carried by `Delete(confirmed)`.
- `alert` becomes a no-op.

Facts about the code that shape the model:

- `handleAddMemo` and `handleUpdateMemo` neither trim nor validate their
  content. The form and the items do that before calling them.
- Ids come from `Date.now()` and can collide. Update and delete act on every
  memo with the given id.

## Model

| member | source | states |
|---|---|---|
| Text.Trim | src/components/MemoForm.tsx:31 | the trimmed string neither starts nor ends with whitespace and is no longer than the input |
| Text.TrimStart | src/components/MemoForm.tsx:31 | removes exactly the leading whitespace: the result is a suffix, the cut part is blank, and the result does not start with whitespace |
| Text.TrimEnd | src/components/MemoForm.tsx:31 | removes exactly the trailing whitespace: the result is a prefix, the cut part is blank, and the result does not end with whitespace |
| Text.TrimBounds | src/components/MemoForm.tsx:31 | trim keeps a slice of the input whose prefix and suffix are all whitespace |
| Text.TrimUnique | src/components/MemoItem.tsx:38 | any trimmed slice left after cutting off a blank prefix and a blank suffix is the trim; with TrimBounds this pins trim down completely |
| Text.TrimOfTrimmed | src/components/MemoItem.tsx:38 | a string without surrounding whitespace is its own trim |
| Text.TrimIdempotent | src/components/MemoItem.tsx:38 | trimming twice equals trimming once |
| Text.TrimEmptyIffBlank | src/components/MemoForm.tsx:31-32 | the trim is the empty (falsy) string exactly when the input is all whitespace |
| MemoStore.CountId | src/App.tsx:64 | the number of memos with an id is at most the list length, and zero exactly when no memo has that id |
| MemoStore.Add | src/App.tsx:38-47 | the list grows by one; the head has id `now`, the content exactly as given, and equal timestamps; the tail is the old list |
| MemoStore.AddAsWritten | src/App.tsx:38-47 | the handler as written: two clock reads give createdAt and updatedAt separately |
| MemoStore.Update | src/App.tsx:49-61 | same length and order; memos with another id are unchanged; matching memos keep id and createdAt and get the new content and updatedAt |
| MemoStore.UpdateAbsent | src/App.tsx:51-59 | updating an id no memo has returns the same list |
| MemoStore.UpdateIdempotent | src/App.tsx:49-61 | repeating the same update changes nothing more |
| MemoStore.Delete | src/App.tsx:63-65 | the length drops by the number of memos with that id; a memo is kept exactly when it was there and has another id |
| MemoStore.DeleteAbsent | src/App.tsx:64 | deleting an id no memo has returns the same list |
| MemoStore.DeleteConcat | src/App.tsx:64 | delete distributes over concatenation, so the kept memos stay in their relative order |
| MemoStore.DeleteIdempotent | src/App.tsx:64 | deleting twice equals deleting once (all duplicates go on the first call) |
| MemoStore.DeleteUndoesAdd | src/App.tsx:46 | deleting a just-added memo's id gives back the old list when no older memo had that id |
| MemoStore.DeleteAfterAdd | src/App.tsx:46 | deleting a just-added memo's id equals deleting that id from the old list, even when the id collided |
| MemoStore.DeleteAfterUpdate | src/App.tsx:49-65 | an update to a memo that is then deleted leaves no trace |
| MemoStore.Load | src/App.tsx:16-32 | an absent key, an empty string or a parse failure loads the empty list; otherwise the parsed list |
| MemoStore.Commit | src/App.tsx:34-36 | after the effect the slot holds the serialisation of the list |
| MemoStore.Open | src/App.tsx:16-36 | mounting loads the list and writes it straight back |
| MemoStore.AddMemo | src/App.tsx:38-47 | add, then the slot holds the serialisation of the new list |
| MemoStore.UpdateMemo | src/App.tsx:49-61 | update, then the slot holds the serialisation of the new list |
| MemoStore.DeleteMemo | src/App.tsx:63-65 | delete, then the slot holds the serialisation of the new list |
| MemoStore.ReopenPersisted | src/App.tsx:16-36 | reopening on a written slot restores the same store when the serialisation is non-empty and parses back |
| MemoForm.Initial | src/components/MemoForm.tsx:19 | the form starts with an empty draft |
| MemoForm.Change | src/components/MemoForm.tsx:48-50 | the draft becomes the typed value |
| MemoForm.SubmitDisabled | src/components/MemoForm.tsx:64 | the button is disabled exactly when the draft is all whitespace |
| MemoForm.Submit | src/components/MemoForm.tsx:26-41 | a blank draft emits nothing and is kept; otherwise trim(draft) is emitted once and the draft cleared; emitted text is non-empty and trimmed |
| MemoForm.DisabledIffSubmitIsNoOp | src/components/MemoForm.tsx:31-34 | the button is disabled exactly when submit would emit nothing and keep the state |
| MemoItem.Mount | src/components/MemoItem.tsx:13-20 | a new item is not editing and its draft is the memo's content |
| MemoItem.HandleEdit | src/components/MemoItem.tsx:27-30 | edit enters edit mode with the draft reset to the memo's content |
| MemoItem.HandleChange | src/components/MemoItem.tsx:75-77 | the draft becomes the typed value; the mode is kept |
| MemoItem.HandleSave | src/components/MemoItem.tsx:37-51 | a blank draft changes nothing and emits nothing; otherwise update(id, trim(draft)) is emitted and edit mode ends, with the draft left as typed |
| MemoItem.HandleCancel | src/components/MemoItem.tsx:58-61 | cancel returns to the freshly mounted state and emits nothing |
| MemoItem.HandleDelete | src/components/MemoItem.tsx:66-70 | delete(id) is emitted exactly when the user confirmed; the state is kept |
| MemoItem.HandleKeyDown | src/components/MemoItem.tsx:85-91 | Ctrl/Cmd+Enter acts as save; Escape, with or without modifiers, acts as cancel; any other key changes nothing |
| MemoItem.Handle | src/components/MemoItem.tsx:27-91 | every emitted command names this memo; updates carry non-empty trimmed content; deletes come only from a confirmed delete |
| MemoItem.ShowsEdited | src/components/MemoItem.tsx:98-128 | never shown in edit mode; in view mode shown exactly when updatedAt differs from createdAt |
| MemoItem.FreshMemoNotEdited | src/components/MemoItem.tsx:127 | with one clock read, a just-added and mounted memo shows no "(edited)" marker |
| MemoItem.FreshMemoEditedAsWritten | src/App.tsx:42-43 | with the two clock reads in `handleAddMemo`, a memo added across a millisecond tick shows "(edited)" as soon as it is mounted |
| MemoItem.UpdateMarksEdited | src/components/MemoItem.tsx:127 | in view mode, an update at a time other than the creation time shows the marker on each updated memo |
| MemoItem.SaveShowsEdited | src/components/MemoItem.tsx:37-51 | a save of a non-blank draft emits an update and leaves edit mode, so the updated memo shows the marker at once |
| MemoApp.Start | src/App.tsx:16-36 | the app starts persisted, with an empty form and no editor states; the list is the fail-soft load of the slot (absent key, empty string or parse failure give an empty list, otherwise the parsed list) |
| MemoApp.Perform | src/App.tsx:49-65 | an item's command leaves the store persisted; an update is exactly the store's update (matching memos get the new content and updatedAt, all others unchanged, order and length kept); a delete is exactly the store's filter, so no memo keeps that id and the rest keep their order |
| MemoApp.Submit | src/components/MemoForm.tsx:31-37 | a submit changes the store only by adding the form's trimmed draft, written through; a blank draft leaves the store alone |
| MemoApp.React | src/components/MemoList.tsx:23-29 | the item's reaction names its own memo, and an update it emits carries clean content |
| MemoApp.ItemStep | src/components/MemoList.tsx:24-28 | an item input changes the store only through the command the item emits, written through; otherwise the store is unchanged |
| MemoApp.Step | src/App.tsx:34-36 | every input keeps the slot equal to the serialisation of the list |
| MemoApp.Run | src/App.tsx:34-64 | over any run of inputs, a clean list stays clean and the slot keeps holding the serialisation of the current list |
| MemoApp.AddKeepsClean | src/App.tsx:38-46 | adding clean content to a clean list keeps it clean |
| MemoApp.UpdateKeepsClean | src/App.tsx:49-60 | updating a clean list with clean content keeps it clean |
| MemoApp.DeleteKeepsClean | src/App.tsx:64 | deleting from a clean list keeps it clean |
| MemoApp.SubmitKeepsClean | src/components/MemoForm.tsx:31-37 | a form submission keeps every stored content non-empty and trimmed |
| MemoApp.PerformKeepsClean | src/App.tsx:49-65 | an item's command with clean content keeps the list clean |
| MemoApp.ItemInputKeepsClean | src/components/MemoItem.tsx:37-70 | an item input keeps every stored content non-empty and trimmed |
| MemoApp.StepKeepsClean | src/App.tsx:41 | one input keeps every stored content non-empty and trimmed, though the store never checks this |
| MemoApp.RunConcat | src/App.tsx:34-36 | a session over two input sequences equals running the second after the first |
| MemoApp.ReloadAfterRun | src/App.tsx:16-36 | reopening after any session restores the store it ended with, given a round-tripping serialisation |
| MemoApp.FreshSessionClean | src/App.tsx:16-32 | a session started on an empty slot only ever holds non-empty, trimmed memos |

## Left out

- Rendering, CSS and the list view (`src/components/MemoList.tsx`, the JSX in
  every component): these are presentation. Two things are taken from them:
  items are keyed by memo id, and the "(edited)" marker appears only in the
  view-mode rendering.
- Browser storage and JSON are parameters. The model does not check that a
  parsed value has the memo shape, because the code does not check it
  either. A parsed value that is not a memo list cannot be represented, and
  the model does not cover it.
- `localStorage.getItem` and `localStorage.setItem` can throw (storage
  disabled, quota exceeded). The model treats both as always succeeding.
- JavaScript strings are sequences of UTF-16 code units; Dafny strings hold
  Unicode scalar values, so a lone surrogate cannot be represented. This
  does not affect trimming: every whitespace or line-terminator character is
  a single unit in the Basic Multilingual Plane.
- The clock and id source are parameters. `Date.now()` can return the same
  value twice, so ids are not assumed unique.
- React scheduling: each handler is one atomic transition. The write-through
  effect is folded into each list transition, because each transition
  builds a new array.
- Which buttons each mode shows: the composed model accepts every handler in
  every mode. This is a superset of what the rendered item offers, so the
  invariants proved for it also hold for the real UI.
- MemoApp.Step: items that share an id share one editor state. This happens
  after a clock collision on add, or when the stored list already holds
  duplicate ids. Adding a memo whose id is already in use also resets that
  shared state. React's behaviour for duplicate keys is not modelled.
- Configuration strings (storage key, title, version) and the console
  diagnostic on a failed parse.
- MemoStore.Add: reads the clock once, so createdAt and updatedAt are equal.
  `handleAddMemo` reads it twice; see the finding below and AddAsWritten.
- MemoStore.Update: takes one clock reading for the whole update, so every
  matching memo gets the same updatedAt. `handleUpdateMemo` reads the clock
  inside the map callback, once per matching memo, so duplicates can get
  different stamps if the clock ticks during the map.

## Findings

| source | as written | input that shows it | evidently intended | confidence | as-written member | corrected member |
|---|---|---|---|---|---|---|
| src/App.tsx:42-43 | `createdAt` and `updatedAt` come from two separate `new Date()` calls | an add whose two clock reads fall on either side of a millisecond tick, e.g. `...20.999Z` and `...21.000Z` | a new memo has `createdAt == updatedAt`, so the "(edited)" marker (`src/components/MemoItem.tsx:127`) is off | low — not executed; needs the reads to straddle a tick | MemoItem.FreshMemoEditedAsWritten | MemoItem.FreshMemoNotEdited |
