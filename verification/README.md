# Notes workspace — a Dafny model

This project models the note workspace of the single-page notes application
(`notes_frontend/src/App.js`): the stored collection of notes, the selection,
the editing draft and the delete-confirmation flag, and the event handlers
that move between them. Every handler is modelled as one pure transition on
an immutable `Workspace.State`, since each runs to completion on one user
event. The two derived views are modelled too: the newest-first order of the
list pane and the 35-character content preview.

Layout:

- `wrappers.dfy` — `Option` (JavaScript `null`/`undefined`) and `Result` (a thrown error).
- `text.dfy` — ECMAScript `trim` and the title validation built on it, and the list-pane preview.
- `notes.dfy` — the `Note` record and the list operations the handlers use: `find`, `filter`, and the in-place `map`.
- `display.dfy` — the display order, a stable sort by update time, newest first.
- `workspace.dfy` — the state record and one function per handler.
- `session.dfy` — user events, the invariant of reachable states, and the editor's four modes.
- `scenarios.dfy` — end-to-end event sequences, plus concrete states showing which note gets selected.

Design choices:

- Timestamps are integers. The clock reading and the fresh identifier (`Date.now()`) are parameters of `SaveNote`.
- `SaveNote` is total. Its contract holds for any clock reading and any identifier. Freshness of the identifier and a clock that has not gone back are assumptions of the surroundings (`Session.EnvOk`), used by the invariant lemmas and by the lemmas about editor modes, saved drafts and list order.
- The alert on a blank title is the `alert` field of the returned `Reaction`, and the state is returned unchanged.
- The selection test `if (selectedId)` follows JavaScript truthiness: `null` and `""` are both "no selection" (`Workspace.HasSelection`).
- `handleDeleteNote` reads `[0].id` of the filtered list. When more than one note is stored and all of them carry the selected id, this throws. It is modelled as `Failure(ReadIdOfUndefined)` rather than excluded by a precondition. `Session.DeleteWhenValid` proves it cannot happen in a valid state.
- The list pane shows the most recently updated note on top, but the code chooses selections by stored order:
  - The initial selection is the first note in stored order, not the most recently updated one (`Scenarios.MountSelectsFirstStored`).
  - After a delete, the new selection is the first survivor in stored order, not the top of the list pane (`Scenarios.DeleteSelectsFirstStored`).
  - A save with a selection but no open editor takes the create branch, because `handleSaveNote` tests `selectedId && isEditing`.

## Model

| member | source | states |
|---|---|---|
| `Workspace.Init` | notes_frontend/src/App.js:16-23 | The component mounts on the stored notes with the first stored note selected (none if empty), an empty draft, no editor and no confirmation |
| `Workspace.HasSelection` | notes_frontend/src/App.js:56 | The test `if (selectedId)` fails exactly for `null` and the empty string, as JavaScript truthiness dictates; the same test guards lines 72, 94 and 106 |
| `Workspace.SelectedNote` | notes_frontend/src/App.js:130 | The selected note is the first stored note carrying the selected id, and one is found whenever a stored note carries it |
| `Workspace.SelectNote` | notes_frontend/src/App.js:39-44 | Selecting leaves the notes alone, selects the id, clears the draft, closes the editor and the confirmation |
| `Workspace.NewNote` | notes_frontend/src/App.js:47-52 | New leaves the notes alone, clears the selection and the draft, and opens the editor |
| `Workspace.EditNote` | notes_frontend/src/App.js:55-62 | With a selection, Edit opens the editor on the selected note's title and content (empty if missing); without one it only dismisses the confirmation |
| `Workspace.SaveNote` | notes_frontend/src/App.js:65-90 | An all-whitespace title raises the alert and changes nothing. The edit branch keeps length, ids and creation times, puts draft and `now` into the notes carrying the selected id and leaves the others. The create branch prepends a note created and updated at `now` and selects it. Both close editor and confirmation |
| `Workspace.DeleteNote` | notes_frontend/src/App.js:93-100 | With no selection, delete is a no-op. Otherwise the result is the notes without the selected id. The selection moves to the first survivor exactly when more than one note was stored. Editor, draft and confirmation are reset. It throws exactly when more than one note is stored and all carry the id |
| `Workspace.CancelEdit` | notes_frontend/src/App.js:103-112 | Cancel keeps notes and selection, closes editor and confirmation, and restores the draft from the selected note (or empties it) |
| `Workspace.ChangeTitle` | notes_frontend/src/App.js:115-117 | Typing a title changes the draft title and nothing else |
| `Workspace.ChangeContent` | notes_frontend/src/App.js:120-122 | Typing content changes the draft content and nothing else |
| `Workspace.ConfirmDeleteNote` | notes_frontend/src/App.js:125-127 | Asking to delete raises the confirmation flag and changes nothing else |
| `Workspace.CancelDelete` | notes_frontend/src/App.js:512 | The dialog's Cancel lowers the confirmation flag and changes nothing else |
| `Workspace.CancelEditIdempotent` | notes_frontend/src/App.js:103-112 | Cancelling an edit twice equals cancelling once |
| `Workspace.CancelDeleteIdempotent` | notes_frontend/src/App.js:512 | Dismissing the confirmation twice equals dismissing it once |
| `Notes.Find` | notes_frontend/src/App.js:58 | `find` returns a note exactly when one carries the id, and then the first such note in stored order; with unique ids it is the only one |
| `Notes.FirstIndexOf` | notes_frontend/src/App.js:107 | The position found carries the id and no earlier note does; none is found exactly when no note carries it |
| `Notes.Without` | notes_frontend/src/App.js:95 | `filter` keeps exactly the notes not carrying the id and never grows the list |
| `Notes.WithoutConcat` | notes_frontend/src/App.js:95 | Filtering distributes over concatenation, so survivors keep their relative order |
| `Notes.WithoutAbsent` | notes_frontend/src/App.js:95 | Filtering an id nobody carries changes nothing |
| `Notes.WithoutUniqueIsSplice` | notes_frontend/src/App.js:95-96 | With unique ids, deleting removes exactly the one note at its position, and the list shrinks by one |
| `Notes.WithoutKeepsUnique` | notes_frontend/src/App.js:95 | Filtering keeps identifiers unique |
| `Notes.Touch` | notes_frontend/src/App.js:74-78 | The in-place `map` keeps length, positions, ids and creation times. Matching notes get the new title, content and update time; all others are untouched |
| `Text.LeadingBlanks` | notes_frontend/src/App.js:68 | Counts exactly the run of whitespace at the start of the title |
| `Text.TrailingBlanks` | notes_frontend/src/App.js:68 | Counts exactly the run of whitespace at the end of the title |
| `Text.Trim` | notes_frontend/src/App.js:68 | `trim` yields the slice right after the leading whitespace, followed only by whitespace, with whitespace on neither of its ends |
| `Text.BlankIffAllWhitespace` | notes_frontend/src/App.js:68 | The title check `!title.trim()` rejects a title exactly when it is all whitespace (including the empty title) |
| `Text.Preview` | notes_frontend/src/App.js:240 | The preview is the content when at most 35 characters long. Otherwise it is the first 35 characters plus an ellipsis. It is never longer than 36, and has 36 characters exactly when the content was cut |
| `Display.Insert` | notes_frontend/src/App.js:133 | Inserting into a newest-first list keeps it newest-first and adds exactly that note |
| `Display.SortForDisplay` | notes_frontend/src/App.js:133 | The displayed list is a permutation of the stored notes with non-increasing update times |
| `Display.UpdatedAtSelects` | notes_frontend/src/App.js:133 | The tie group at an instant holds exactly the notes updated at that instant, so stability speaks about every tie |
| `Display.SortIsStable` | notes_frontend/src/App.js:133 | Notes updated at the same instant are displayed in their stored order |
| `Session.Step` | notes_frontend/src/App.js:191-512 | The controls' wiring of events to handlers: only Save and Delete change the stored collection; a blank-title save and a delete without selection change nothing; a delete that would throw leaves the state as it was; selecting shows the clicked note and New opens an empty editor |
| `Session.SelectionTruthyWhenValid` | notes_frontend/src/App.js:56 | In a valid state the truthiness test for a selection coincides with a selection being present, since no stored id is empty |
| `Session.InitValid` | notes_frontend/src/App.js:16-20 | Mounting on notes with unique, non-empty ids and ordered timestamps gives a valid state |
| `Session.DeleteWhenValid` | notes_frontend/src/App.js:93-100 | In a valid state delete never throws. It removes exactly the selected note and keeps the others in order. The selection is cleared exactly when nothing is left, and the result is valid |
| `Session.SaveKeepsValid` | notes_frontend/src/App.js:65-90 | A save with a fresh id on a clock not gone back keeps ids unique and non-empty, timestamps ordered and the selection live |
| `Session.SaveKeepsHistory` | notes_frontend/src/App.js:72-85 | After a save, every stored note is still found by its id, with its creation time and an update time not moved back |
| `Session.StepPreservesValid` | notes_frontend/src/App.js:39-127 | Every admitted event keeps the reachable-state invariant |
| `Session.RunPreservesValid` | notes_frontend/src/App.js:39-127 | Every admitted event sequence from a valid state ends in a valid state |
| `Session.ModeAfterStep` | notes_frontend/src/App.js:39-112 | Each event moves the editor between the empty, viewing, new-note and existing-note modes as the handlers dictate; a delete lands in viewing exactly when notes remain |
| `Session.SavedDraftIsShown` | notes_frontend/src/App.js:72-89 | After a successful save the selected note carries the draft, so an immediate cancel gives the same draft back |
| `Session.NewNoteHeadsList` | notes_frontend/src/App.js:133 | A newly created note is first in the list pane |
| `Scenarios.CreateFirstNote` | notes_frontend/src/App.js:47-90 | From an empty collection, New + title + Save stores one note with that title, created equal to updated, and selects it |
| `Scenarios.EditExistingNote` | notes_frontend/src/App.js:39-90 | Select, Edit, new content, Save rewrites that note in place with the new content and update time `now`, keeping id, title, creation time and the selection |
| `Scenarios.BlankTitleIsRejected` | notes_frontend/src/App.js:65-71 | Saving a blank title after New raises the alert and leaves the state as it was, still writing a new note |
| `Scenarios.CancelDiscardsEdits` | notes_frontend/src/App.js:103-112 | Select, Edit, typing, Cancel leaves the notes untouched and the draft equal to the stored note |
| `Scenarios.MountSelectsFirstStored` | notes_frontend/src/App.js:20 | The initial selection is the first stored note, which need not be the note heading the list |
| `Scenarios.DeleteSelectsFirstStored` | notes_frontend/src/App.js:96 | After a delete the selection is the first stored survivor, which need not be the note heading the list |

## Left out

- Persistence (`localStorage`, `JSON.parse`/`JSON.stringify`, lines 16-19 and 26-28) is browser I/O and library serialisation. The in-memory collection stands for the stored one. The application has no guard against malformed stored JSON, so the serialisation round trip is not modelled.
- The effect that reloads the draft when the selection changes (lines 31-36) is left out. It is React scheduling, and in every handler-driven sequence the handlers already set the same draft.
- ISO-8601 strings, `new Date(...)` parsing in the comparator and `formatDate`/`toLocaleString` (lines 136-140) are left out. These are locale-dependent, floating-point date handling. Timestamps are integers, and unparseable dates (`NaN` comparisons) are not modelled.
- Text.Preview: counts Unicode characters, whereas `substring` and `length` count UTF-16 code units; the two differ for characters outside the Basic Multilingual Plane. The optional chaining `content?.` is not modelled because a note's content is always a string here.
- The rendering is left out: JSX, styles, colour constants and the `maxLength` limits of 72 and 1500 characters enforced by the browser. `ChangeTitle` and `ChangeContent` accept text of any length.
- Which controls are visible when (for example, Save and Cancel only while editing, and typing only while editing) is left out. `Session.Step` applies each handler as written whatever the visibility.
- Session.Step: a delete that would throw is not applied (the state stays). What React does with updates queued before the throw is not modelled; `Session.DeleteWhenValid` proves the throw unreachable from valid states.
- The render smoke test (`App.test.js`) has no logic to model.
