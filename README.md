# Note view screen of the notes app, in Dafny

This project models `ViewNoteScreen`, the screen of the Compose notes app that
shows one note. The screen does three things:

- It resolves the selected note. The note is the first one in `state.notes`
  whose `id` equals `selectedNoteId`, or nothing.
- It keeps three remembered flags: `expanded` (the overflow menu),
  `showDeleteDialog` and `showExportDialog`.
- Its click handlers flip those flags, send `NoteEvent`s (`DeleteNote`,
  `ExportNote`, `StartEditing`) to `onEvent`, and make navigation requests.

Files:

- `Wrappers.dfy`: `Option`, which stands for Kotlin's nullable `Note?`.
- `ViewNoteScreen.dfy` holds the data model and its functions:
  - the data model: `Note`, `Intent`, `Route`, `Nav`, `Display`;
  - the lookup `Resolve` and the displayed values `Shown`;
  - a `Session` value and the one-event transition function `Step`;
  - the class `ViewSession`. Its fields are the screen's mutable state. Each
    handler method states the new state in full and proves that it performs
    exactly one `Step`.
- `SessionRuns.dfy`: `Run` handles a whole sequence of events. Lemmas state
  what holds for every run, plus the two example scenarios.

Events come in two kinds. `Recompose(notes)` is a new collection from the state
holder; after it, `note` is computed again. The other events are clicks.
A click can only reach a widget that is on screen:

- the menu and its items only while `expanded`;
- the delete dialog while `showDeleteDialog`;
- the export dialog while `showExportDialog` holds AND the note resolves.

The class methods require that their widget is rendered. `Step` ignores a click
on a widget that is not rendered.

Three behaviours of the code a reader might not expect:

- Confirming deletion uses `note!!` (ViewNoteScreen.kt:73). When the note is
  missing, the handler throws. It is not skipped. The model returns a
  `Crashed` outcome and leaves the state unchanged.
- The "Delete" menu item toggles `showDeleteDialog`. It does not set it to
  true.
- Confirming deletion does not clear `showDeleteDialog`. The screen is left
  through navigation instead.

## Model

| member | source | states |
|---|---|---|
| `ViewNoteScreen.Resolve` | app/src/main/java/com/example/learning3/ui/screens/ViewNoteScreen.kt:57-59 | Returns nothing exactly when no note has the id, so an empty collection gives nothing. Otherwise it returns the note at the first index carrying the id. |
| `ViewNoteScreen.ResolveUnique` | app/src/main/java/com/example/learning3/ui/screens/ViewNoteScreen.kt:57-59 | When ids are unique, looking up the id of the note at position k returns exactly that note. |
| `ViewNoteScreen.Shown` | app/src/main/java/com/example/learning3/ui/screens/ViewNoteScreen.kt:112-205 | With no matching note, the title and content are "" and the timestamp is 0. Otherwise they are those of the first note with the selected id. |
| `ViewNoteScreen.Step` | app/src/main/java/com/example/learning3/ui/screens/ViewNoteScreen.kt:66-177 | One handled event. The logs only grow, by at most one entry each. A clicked widget that is not rendered changes nothing; `Rendered` gives the render conditions: the menu items while `expanded` (l.150), the delete dialog while `showDeleteDialog` (l.66), the export dialog while `showExportDialog` and the note resolves (l.86). Any emitted intent carries the resolved note. Only Recompose changes the collection. It crashes exactly when deletion is confirmed with the dialog shown and no note resolved, and then the session is left as it was. |
| `ViewNoteScreen.ViewSession.constructor` | app/src/main/java/com/example/learning3/ui/screens/ViewNoteScreen.kt:60-62 | A fresh session has all three flags false and empty logs. |
| `ViewNoteScreen.ViewSession.Recompose` | app/src/main/java/com/example/learning3/ui/screens/ViewNoteScreen.kt:57-59 | A new collection replaces the old one. No flag or log changes. |
| `ViewNoteScreen.ViewSession.TapBack` | app/src/main/java/com/example/learning3/ui/screens/ViewNoteScreen.kt:124-128 | Back appends one pop-back-stack request and changes nothing else. |
| `ViewNoteScreen.ViewSession.TapOverflow` | app/src/main/java/com/example/learning3/ui/screens/ViewNoteScreen.kt:134-137 | Sets `expanded`. It leaves both dialog flags alone and emits nothing. |
| `ViewNoteScreen.ViewSession.DismissMenu` | app/src/main/java/com/example/learning3/ui/screens/ViewNoteScreen.kt:152 | Clears `expanded`. It leaves both dialog flags alone and emits nothing. |
| `ViewNoteScreen.ViewSession.ChooseEdit` | app/src/main/java/com/example/learning3/ui/screens/ViewNoteScreen.kt:156-162 | Closes the menu. It appends `StartEditing(note)` only if the note resolved, and always navigates to the edit route of `selectedNoteId`. |
| `ViewNoteScreen.ViewSession.ChooseExport` | app/src/main/java/com/example/learning3/ui/screens/ViewNoteScreen.kt:164-169 | Closes the menu and sets `showExportDialog`. Nothing else changes. |
| `ViewNoteScreen.ViewSession.ChooseDelete` | app/src/main/java/com/example/learning3/ui/screens/ViewNoteScreen.kt:171-176 | Closes the menu and toggles `showDeleteDialog`. Nothing else changes. |
| `ViewNoteScreen.ViewSession.ConfirmExport` | app/src/main/java/com/example/learning3/ui/screens/ViewNoteScreen.kt:86-103 | Only possible while the dialog flag holds and the note resolves. It appends exactly one `ExportNote(note)` and leaves `expanded` and `showExportDialog` false. |
| `ViewNoteScreen.ViewSession.DismissExport` | app/src/main/java/com/example/learning3/ui/screens/ViewNoteScreen.kt:92-93 | Dismiss and Cancel both clear `showExportDialog` and emit nothing. |
| `ViewNoteScreen.ViewSession.ConfirmDelete` | app/src/main/java/com/example/learning3/ui/screens/ViewNoteScreen.kt:72-79 | It crashes exactly when no note resolved, and then nothing changes. Otherwise it appends one `DeleteNote(note)` and navigates to Notes with popUpTo(Notes, inclusive). The flags stay as they were. |
| `ViewNoteScreen.ViewSession.DismissDelete` | app/src/main/java/com/example/learning3/ui/screens/ViewNoteScreen.kt:71-82 | Dismiss and Cancel both clear `showDeleteDialog` and emit nothing. |
| `SessionRuns.Run` | app/src/main/java/com/example/learning3/ui/screens/ViewNoteScreen.kt:66-177 | A run of events keeps the selected id. The intent and navigation logs only grow, by at most one intent per event. |
| `SessionRuns.RunIntentsAboutSelected` | app/src/main/java/com/example/learning3/ui/screens/ViewNoteScreen.kt:57-177 | Every intent a run sends carries a note whose id is the selected id. |
| `SessionRuns.RunQuietWithoutActions` | app/src/main/java/com/example/learning3/ui/screens/ViewNoteScreen.kt:66-177 | A run with no "Edit" and no dialog confirmation sends no intent. |
| `SessionRuns.RunDeleteNeedsMenuChoice` | app/src/main/java/com/example/learning3/ui/screens/ViewNoteScreen.kt:66-84 | A run that never chooses "Delete" neither shows the delete dialog nor emits `DeleteNote`. |
| `SessionRuns.RunExportNeedsMenuChoice` | app/src/main/java/com/example/learning3/ui/screens/ViewNoteScreen.kt:86-104 | A run that never chooses "Export" neither raises the export dialog nor emits `ExportNote`. |
| `SessionRuns.RunNoCrashWhileNotePresent` | app/src/main/java/com/example/learning3/ui/screens/ViewNoteScreen.kt:72-73 | A run cannot crash while every collection the screen composes with holds the selected note. |
| `SessionRuns.RunCrashNeedsMissingNote` | app/src/main/java/com/example/learning3/ui/screens/ViewNoteScreen.kt:72-73 | A crashed run had the note missing at the start, or some recomposition dropped it. |
| `SessionRuns.MenuItemsCloseMenu` | app/src/main/java/com/example/learning3/ui/screens/ViewNoteScreen.kt:154-177 | Every menu item closes the menu. Edit navigates to the edit route of the selected id and, when the note resolves, also emits `StartEditing`. Export raises its dialog and emits nothing. Delete toggles its dialog and emits nothing. |
| `SessionRuns.RunSilentWithoutNote` | app/src/main/java/com/example/learning3/ui/screens/ViewNoteScreen.kt:66-177 | While the selected note is missing and no recomposition brings it back, a run sends no intent at all: Edit only navigates, the export dialog never renders, and delete-confirm crashes before emitting. |
| `SessionRuns.DeleteSecondOfTwo` | app/src/main/java/com/example/learning3/ui/screens/ViewNoteScreen.kt:66-83 | With notes 1 "A" and 2 "B" and id 2, the title shown is "B". Menu, Delete, Confirm emits `DeleteNote` of note 2 exactly once and navigates to Notes with the screen popped. |
| `SessionRuns.MissingNote` | app/src/main/java/com/example/learning3/ui/screens/ViewNoteScreen.kt:57-205 | With id 99 absent, the screen shows "", "" and 0. Menu, Export, Confirm emits nothing because the dialog never renders. Menu, Delete, Confirm crashes. |

## Left out

- `CustomComposables.kt` is not part of this model. `SearchBar`, `Dialog` and `SettingsListItem` are widget styling. The grid entrance animation in `NotesGrid` depends on `calculateDelayAndEasing`, `scaleAndAlpha` and `formatDateAndTime` from `UtilityFunctions`, and that file is not part of this model.
- The export dialog's title, body and success message come from `exportNoteDialogTitle`, `exportNoteDialogBody` and `exportNoteDialogSuccessMsg`, which are not part of this model. The toast is a host side effect, so neither is modelled.
- `Shown` gives the raw `lastModified` number. The formatting done by `formatDateAndTime` is not modelled.
- Order of intents and navigations: they are kept in two separate logs, so the model does not record that delete-confirm and "Edit" send their event before navigating (ViewNoteScreen.kt:73-74, 159-161).
- Navigation is only an entry in a log. The back stack is not modelled, so a session can keep taking events after it navigates away.
- Compose details are not modelled: recomposition timing, `LocalContext`, theming and scroll state. The model also does not capture that an open dialog is modal and blocks the app bar.
- `Note.isPinned` and `Note.isSelected` are left out because the screen never reads them. Ids and timestamps are unbounded integers, because the screen only compares and displays them.
