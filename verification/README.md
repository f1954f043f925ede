# Notes client: verified model of the note list

This project models the client side of a small note-taking application: the
`NotesManager` React component. The component shows an ordered list of notes,
holds a creation form (title, content, pending image) and mirrors the whole
list under the `notes` key of the browser's local storage. It does three
things:

- On mount, it loads the stored list if the key holds a blob that parses. An
  absent or empty blob is ignored, and an unparseable one is logged. Either
  way the list stays empty.
- Submit does nothing when the title or the content is empty. Otherwise it
  builds a note from the form and the pending image, puts it in front of the
  list, writes the whole list to storage and clears the form.
- Delete drops every note carrying the given id and writes the remainder to
  storage.

Nothing catches an error from the storage write. Notes carry their images
inline, so a large image can exceed the storage quota and make the write
throw. The handler then stops at the write: the list shown has already
changed, but storage keeps the old blob. In a submit, the form also stays
filled and the save stays marked as in progress.

The model has two modules:

- `NoteList` (`note_list.dfy`) holds the list as a value. It has the `Note`
  record and `Without`, the id filter behind delete. Its lemmas say what that
  filter keeps, drops and preserves.
- `NoteClient` (`note_client.dfy`) holds the component as a class,
  `NotesManager`. Its fields are the component's state variables, and its
  methods are the handlers. Local storage is the field `storage`, an optional
  `Blob`. Whether a storage write succeeds is a parameter (`writeOk`) of
  `Submit` and `Delete`, and both outcomes are stated. The predicate
  `Synced()` says that reloading from storage gives the list now shown.
  Mounting and every successful write establish it. A failed write in a
  submit breaks it, and so does a failed write in a delete that removed a
  note.

The clock is a parameter of `Submit`: `now` is the millisecond reading used
as the id, and `nowIso` the ISO timestamp. Ids come from the clock, so they
are not guaranteed unique. Delete therefore removes every note with a
matching id. One might expect delete to remove exactly one entry. The code
filters out every match, and the model follows the code.
`WithoutUniqueDropsOne` proves the "exactly one" reading only for a list
whose ids are unique.

## Model

| member | source | states |
|---|---|---|
| `NoteList.Without` | frontend/miniprojet/src/composants/NotesManager.js:57 | The filtered list is shorter by the number of notes carrying the id. None of its notes carries the id. Each of its notes comes from the original list. |
| `NoteList.WithoutIsSubsequence` | frontend/miniprojet/src/composants/NotesManager.js:57 | The surviving notes keep their original relative order (the result is a subsequence of the list). |
| `NoteList.WithoutCharacterized` | frontend/miniprojet/src/composants/NotesManager.js:57 | A list is the result of delete if and only if it is a subsequence of the notes, avoids the id, and drops exactly the notes carrying it. So delete yields exactly the subsequence of notes whose id differs. |
| `NoteList.WithoutAbsent` | frontend/miniprojet/src/composants/NotesManager.js:57 | Delete leaves the list unchanged if and only if no note carries the id. |
| `NoteList.WithoutIdempotent` | frontend/miniprojet/src/composants/NotesManager.js:57 | Deleting the same id twice gives the same list as deleting it once. |
| `NoteList.WithoutCommutes` | frontend/miniprojet/src/composants/NotesManager.js:57 | Deleting two ids one after the other gives the same list in either order. |
| `NoteList.WithoutKeepsOthers` | frontend/miniprojet/src/composants/NotesManager.js:57 | Every note whose id differs is kept as many times as it occurred. No note carrying the id is kept. |
| `NoteList.WithoutUndoesPrepend` | frontend/miniprojet/src/composants/NotesManager.js:46-57 | If the new note's id was not yet used, deleting that id right after the prepend of a submit gives back the earlier list. |
| `NoteList.UniqueIdsPrepend` | frontend/miniprojet/src/composants/NotesManager.js:39-46 | Prepending a note keeps ids unique if and only if the list had unique ids and did not use the new note's id. |
| `NoteList.CountUnique` | frontend/miniprojet/src/composants/NotesManager.js:39 | In a list with unique ids, an id occurs at most once. |
| `NoteList.WithoutUniqueDropsOne` | frontend/miniprojet/src/composants/NotesManager.js:57 | In a list with unique ids, deleting an id that is present removes exactly one note. |
| `NoteList.WithoutKeepsUnique` | frontend/miniprojet/src/composants/NotesManager.js:57 | Delete keeps the ids of the list unique. |
| `NoteClient.NotesManager.constructor` | frontend/miniprojet/src/composants/NotesManager.js:5-20 | Mounting starts with an empty form, no save in progress, and storage as found. The list shown is `Restore(stored)`: the stored list when the blob parses, and empty otherwise. So the component starts synced with storage. |
| `NoteClient.NotesManager.Load` | frontend/miniprojet/src/composants/NotesManager.js:11-20 | A stored blob that parses replaces the list. An absent, empty or unparseable blob leaves the list as it was; a failed parse is caught. Nothing else changes. |
| `NoteClient.NotesManager.SetTitle` | frontend/miniprojet/src/composants/NotesManager.js:94 | Editing the title sets the title to the typed value and changes nothing else. |
| `NoteClient.NotesManager.SetContent` | frontend/miniprojet/src/composants/NotesManager.js:107 | Editing the content sets the content to the typed value and changes nothing else. |
| `NoteClient.NotesManager.SetImagePreview` | frontend/miniprojet/src/composants/NotesManager.js:26-28 | A finished image read sets the pending image to its data URL and changes nothing else. |
| `NoteClient.NotesManager.Submit` | frontend/miniprojet/src/composants/NotesManager.js:33-54 | With an empty title or content, nothing changes: not the list, not storage, not the form. Otherwise the list becomes the new note followed by the old list. That note holds the supplied id, the old title and content, the pending image and the supplied timestamp. If the storage write succeeds, storage holds exactly the new list, the form fields are "" and no save is in progress. If it throws, storage keeps the old blob, the form keeps its values and the save stays in progress. Starting synced, the component stays synced exactly when the write succeeds. When no save was in progress, the list changes exactly when the submit button (line 149) was enabled. |
| `NoteClient.NotesManager.Delete` | frontend/miniprojet/src/composants/NotesManager.js:56-60 | The list becomes `Without(old list, id)`. If the storage write succeeds, storage holds exactly that list; if it throws, storage keeps the old blob. The form is untouched. Starting synced, a failed write leaves the component synced exactly when no note carried the id. |
| `NoteClient.Remount` | frontend/miniprojet/src/composants/NotesManager.js:12-15 | A component mounted from the storage that a synced component left behind shows the same notes in the same order, with no save in progress. |
| `NoteClient.Restore` | frontend/miniprojet/src/composants/NotesManager.js:12-19 | What a mount shows: the stored list when the key holds a blob that parses, and the empty list when the key is absent, empty or unparseable. |
| `NoteClient.SubmitEnabled` | frontend/miniprojet/src/composants/NotesManager.js:149 | The submit button is enabled exactly when title and content are non-empty and no save is in progress. `Submit`'s contract ties it to whether the list changes. |

## Left out

- The backend (`backend/server.js`) is not part of this model. It is Express routing, middleware and MongoDB connection set-up, plus route bodies that pass Mongoose results on as status codes. Its ordering, validation and not-found behaviour belong to Mongoose, which is not in view. The client never calls it.
- Reading the image file with `FileReader` (lines 22-31) is asynchronous I/O. Its completion is modelled as the setter `SetImagePreview`.
- JSON encoding and `localStorage` are represented abstractly. Storage is `Option<Blob>`, and a written list is stored as `Serialized(list)`, which reloads to the same list. Text that parses to a value other than a note array (such as `null`) is not modelled. The source would put that value into its state unchanged.
- `Date.now()` and `new Date().toISOString()` are the parameters `now` and `nowIso` of `Submit`. The clock and ISO formatting are not modelled.
- Rendering, styling and the `fr-FR` date display (lines 62-245) are presentation only.
- `isLoading` is set to true at the start of a submit (line 36) and back to false at its end (line 53). Only the value at the end of the handler is modelled: false after a successful write, true when the write throws.
- NoteClient.NotesManager.Load: assumes reading storage succeeds. The read with `localStorage.getItem` (line 12) sits outside the `try`, so a browser that refuses storage access makes the load effect throw, and that path is not modelled. The constructor makes the same assumption. Only a failed parse is caught, and it leaves the list as it was.
- The `console.error` logging of a failed parse (line 17) is not modelled. Only its effect, that the list stays as it was, is kept.
