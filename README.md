# Markdown-Notes: the note-list state, in Dafny

Markdown-Notes is a single-page note-taking application. Its top-level
component `App` (src/App.js) holds two pieces of state: an ordered list of
notes, each an `{id, body}` pair of strings with the most recently created or
edited note first, and the id of the note currently selected for editing.
This project models that state and the four operations that change or read
it: creating a note, editing the current note, resolving which note is
current, and deleting a note, plus the rule that picks the initial state.

- `notes.dfy`, module `Notes`: the note list as values. `Find` is the
  first-match lookup, `FindCurrent` the lookup with its fallback to the
  first note, `Without` the filter that deletion applies, and `Updated` a
  closed-form reference for the list an edit produces: the matching notes
  with the new body, in reverse order, then all other notes in their order.
  The lemmas state what these do.
- `app.dfy`, module `NotesApp`: the class `App`, with fields `notes` and
  `currentNoteId` and one method per operation. `RebuildNotes` is the loop
  of the edit callback, with its `unshift`/`push` steps. It is proved equal
  to `Updated`. The scenario methods at the end replay creating twice,
  editing then deleting, deleting the only note, and editing a note next to
  two notes that share an id. Their assertions follow
  from the contracts alone.

Two behaviours of the code are kept as written, although a tidier design
would differ:
- The edit takes no id. It keys on the stored current id. When that id names
  no note, the editor still shows the fallback first note, but typing into it
  leaves the list unchanged (`StaleSelectionEditIsNoop`).
- The edit moves every note carrying the current id, not just one. Only `id`
  and `body` are modelled, so all moved notes become the same value. Their
  reversed order therefore cannot be seen (`UpdatedReversalInvisible`).

Nothing in the code keeps ids unique. The stored list is taken as it is, so
the contracts hold for lists with repeated ids too. The contracts about
uniqueness say that each operation preserves it.

## Model

| member | source | states |
|---|---|---|
| `Notes.Find` | src/App.js:52-54 | Returns nothing exactly when no note has the id. Otherwise it returns a note of the list that has the id. |
| `Notes.FindFirst` | src/App.js:52-54 | When the note at index k has the id and no earlier note does, `Find` returns that note: the first match. |
| `Notes.FindCurrent` | src/App.js:51-55 | Returns nothing exactly when the list is empty. If some note has the current id, it returns what `Find` returns: the first note of the list with that id. Otherwise it returns the first note. |
| `Notes.InitialSelectionResolves` | src/App.js:19-21 | Starting from the first note's id (or `""` on an empty list), the current note resolves to the first note, or to nothing on an empty list. |
| `Notes.Without` | src/App.js:60 | The deleted id is left nowhere. The result is never longer. Deleting an absent id returns the list unchanged. |
| `Notes.WithoutMembers` | src/App.js:60 | A note is in the result if and only if it was in the list and has another id. |
| `Notes.WithoutAppend` | src/App.js:60 | Deletion distributes over concatenation, so the remaining notes keep their relative order. |
| `Notes.DeleteUniqueRemovesOne` | src/App.js:60 | When no note other than the one at index k carries its id, deleting that id gives exactly the list without index k, one note shorter. Other ids may repeat. |
| `Notes.DeleteKeepsUnique` | src/App.js:60 | Deleting keeps ids unique. |
| `Notes.DeleteCurrentFallsBack` | src/App.js:51-60 | After the current note is deleted, the current note resolves to the first remaining note, or to nothing. |
| `Notes.Rewritten` | src/App.js:39-40 | Every note it collects is Note(id, text): the matching note with its body replaced. |
| `Notes.RewrittenWithoutLength` | src/App.js:36-45 | Every old note goes to exactly one side, the rewritten matches or the others, so the two counts add up to the list's length. |
| `Notes.ReverseAppend` | src/App.js:40 | Putting an element in front of a reversed prefix is the reverse of the extended prefix, which is how `unshift` builds the front part. |
| `Notes.UpdatedSnoc` | src/App.js:36-45 | One more old note: a match, with the new body, goes in front of the result. Any other note goes at its back. |
| `Notes.UpdatedLength` | src/App.js:34-47 | An edit never changes the number of notes. |
| `Notes.UpdatedNoMatch` | src/App.js:36-45 | When no note has the current id, the edit gives back the very same list. |
| `Notes.UpdatedUniqueMatch` | src/App.js:39-43 | When exactly the note at index k has the id (other ids may repeat), the result is Note(id, text) followed by the notes before and after index k, in their original order. |
| `Notes.UpdatedSoleMatchFront` | src/App.js:39-43 | In the same case, the result has the same length, its first note is Note(id, text), and the rest is exactly the list with that id deleted. |
| `Notes.UpdatedSoleFront` | src/App.js:36-45 | The same holds whenever exactly one note carries the id. With unique ids, any id that occurs is carried by exactly one note. |
| `Notes.UpdatedKeepsOthers` | src/App.js:40-42 | A note with another id is in the result if and only if it was in the list. Every note in the result that has the id has the new body. |
| `Notes.ConsUnique` | src/App.js:28 | Putting a note whose id the list lacks in front of a list with unique ids keeps the ids unique. |
| `Notes.UpdatedKeepsUnique` | src/App.js:40-42 | An edit keeps ids unique. |
| `Notes.UpdatedReversalInvisible` | src/App.js:40 | The reversed order of the matches cannot be observed: the result equals the matches in list order, followed by the others. |
| `Notes.StaleSelectionEditIsNoop` | src/App.js:32-55 | When the current id names no note, the current note is the first note, yet the edit leaves the list unchanged. Typing text different from that note's body does not reach it. |
| `NotesApp.RebuildNotes` | src/App.js:33-48 | The loop with unshift and push produces exactly `Updated`. The length is unchanged. With no match, the list is returned as it was. |
| `NotesApp.App.constructor` | src/App.js:11-21 | The list is the stored list, or empty when nothing is stored. The current id is the first note's id, or `""`. The current note resolves to the first note, or to nothing. |
| `NotesApp.App.CreateNewNote` | src/App.js:23-30 | The new note, with the placeholder body, is at index 0 and the old notes follow unchanged. The list grows by one. The new id is selected and resolves to the new note. Unique ids stay unique. |
| `NotesApp.App.SetCurrentNoteId` | src/App.js:76 | Selecting overwrites the current id without checking it. The list is unchanged. |
| `NotesApp.App.UpdateNote` | src/App.js:32-49 | The new list is `Updated` of the old list under the unchanged current id, with the same length. Without a match the list is unchanged. When exactly one note carries the current id, index 0 holds the current id and the new text, and the rest are the other notes in order. The same holds with unique ids and a match. Unique ids stay unique. |
| `NotesApp.App.FindCurrentNote` | src/App.js:51-55 | Returns `FindCurrent` of the state and changes nothing. It returns nothing only for an empty list, and the matching note when the current id names one. |
| `NotesApp.App.DeleteNote` | src/App.js:57-61 | The new list is `Without` of the old one. The selection is unchanged. The deleted id is gone, nothing changes when it was absent, and unique ids stay unique. |

## Left out

- Rendering: the JSX, the `Split`, `Sidebar` and `Editor` components and the empty-state view (src/App.js:63-102) are user interface only.
- Storage: `window.localStorage` and `JSON.parse`/`JSON.stringify` (src/App.js:12, 15-17) are browser I/O and a library serialiser. The constructor takes the already parsed stored list as an `Option`, with `None` for what `JSON.parse(...) || []` (src/App.js:12) turns into an empty list: a missing entry, or any falsy parsed value such as `null`, `false`, `0` or `""`. Unreadable stored text, on which `JSON.parse` would throw without being caught, is not modelled. The effect that writes the list back after every change is not modelled, and there is no field mirroring the stored copy.
- Id generation: `nanoid()` (src/App.js:25) is a foreign generator. Its result is the parameter of `CreateNewNote`, which requires that the id is not already in the list.
- `event.stopPropagation()` and `console.log` in delete (src/App.js:58-59) are view and logging side effects.
- React's deferred and batched state updates: each setter is an immediate field assignment, and each updater callback runs on the current list.
- The loose `!=` in delete (src/App.js:60) compares two strings, so it is modelled as plain string inequality.
- Notes carry only `id` and `body`. Other properties a stored object might have, which the spread `{...currNote, body: text}` would copy, are not modelled.
