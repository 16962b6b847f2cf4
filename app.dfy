/** The state held by the application's top-level component: the ordered list
    of notes and the id of the note selected as current, with the operations
    the user interface calls to create, select, edit, resolve and delete notes.
    Every state setter is modelled as an immediate field assignment.
 */
module NotesApp {
  import opened Notes

  /** The list an edit of the current note produces, built the way the editor
      callback does: walk the old list, put each note carrying `currentId`,
      with its body replaced by `text`, in front of the result, and append
      every other note at the back. */
  method RebuildNotes(oldNotes: seq<Note>, currentId: string, text: string) returns (newNotes: seq<Note>)
    ensures newNotes == Updated(oldNotes, currentId, text)
    ensures |newNotes| == |oldNotes|
    ensures currentId !in Ids(oldNotes) ==> newNotes == oldNotes
  {
    newNotes := [];
    for i := 0 to |oldNotes|
      invariant newNotes == Updated(oldNotes[..i], currentId, text)
    {
      var currNote := oldNotes[i];
      TakeSnoc(oldNotes, i);
      UpdatedSnoc(oldNotes[..i], currNote, currentId, text);
      if currNote.id == currentId {
        newNotes := [currNote.(body := text)] + newNotes;
      } else {
        newNotes := newNotes + [currNote];
      }
    }
    assert oldNotes[..|oldNotes|] == oldNotes;
    UpdatedLength(oldNotes, currentId, text);
    if currentId !in Ids(oldNotes) {
      UpdatedNoMatch(oldNotes, currentId, text);
    }
  }

  class App {
    /** The notes, most recently created or edited first. */
    var notes: seq<Note>
    /** The id of the note selected for editing; it may name no note at all. */
    var currentNoteId: string

    /** Start from what storage held (`None` when nothing was stored), and
        select the first note, or nothing (the empty id) on an empty list. */
    constructor (stored: Option<seq<Note>>)
      ensures notes == (if stored.Some? then stored.value else [])
      ensures currentNoteId == (if notes != [] then notes[0].id else "")
      ensures FindCurrent(notes, currentNoteId) == (if notes != [] then Some(notes[0]) else None)
    {
      var initial := if stored.Some? then stored.value else [];
      InitialSelectionResolves(initial);
      notes := initial;
      currentNoteId := if initial != [] then initial[0].id else "";
    }

    /** Put a new note with id `newId` and the placeholder body in front of the
        list and select it. The id comes from a generator that never repeats. */
    method CreateNewNote(newId: string)
      requires newId !in Ids(notes)
      modifies this
      ensures notes == [Note(newId, Placeholder)] + old(notes)
      ensures |notes| == |old(notes)| + 1
      ensures currentNoteId == newId
      ensures FindCurrent(notes, currentNoteId) == Some(Note(newId, Placeholder))
      ensures UniqueIds(old(notes)) ==> UniqueIds(notes)
    {
      var newNote := Note(newId, Placeholder);
      if UniqueIds(notes) {
        ConsUnique(newNote, notes);
      }
      notes := [newNote] + notes;
      currentNoteId := newNote.id;
      assert Find(notes, currentNoteId) == Some(newNote);
    }

    /** Select the note with id `id`; the id is not checked against the list. */
    method SetCurrentNoteId(id: string)
      modifies this
      ensures currentNoteId == id
      ensures notes == old(notes)
    {
      currentNoteId := id;
    }

    /** Replace the body of the current note by `text` and move it to the front.
        The edit is keyed on the stored current id: when that id names no note,
        the list stays as it was. */
    method UpdateNote(text: string)
      modifies this
      ensures notes == Updated(old(notes), currentNoteId, text)
      ensures currentNoteId == old(currentNoteId)
      ensures |notes| == |old(notes)|
      ensures currentNoteId !in Ids(old(notes)) ==> notes == old(notes)
      ensures UniqueIds(old(notes)) ==> UniqueIds(notes)
      ensures (exists k: nat :: SoleAt(old(notes), k) && old(notes)[k].id == currentNoteId) ==>
                notes[0] == Note(currentNoteId, text) && notes[1..] == Without(old(notes), currentNoteId)
      ensures UniqueIds(old(notes)) && currentNoteId in Ids(old(notes)) ==>
                notes[0] == Note(currentNoteId, text) && notes[1..] == Without(old(notes), currentNoteId)
    {
      var oldNotes := notes;
      notes := RebuildNotes(oldNotes, currentNoteId, text);
      if UniqueIds(oldNotes) {
        UpdatedKeepsUnique(oldNotes, currentNoteId, text);
      }
      UpdatedSoleFront(oldNotes, currentNoteId, text);
    }

    /** The note to show as current: the one with the current id, else the
        first note, else nothing. Changes neither the list nor the selection. */
    method FindCurrentNote() returns (note: Option<Note>)
      ensures note == FindCurrent(notes, currentNoteId)
      ensures note.None? <==> notes == []
      ensures currentNoteId in Ids(notes) ==> note.Some? && note.value.id == currentNoteId
    {
      note := FindCurrent(notes, currentNoteId);
    }

    /** Remove every note with id `noteId`; the selection is left as it was. */
    method DeleteNote(noteId: string)
      modifies this
      ensures notes == Without(old(notes), noteId)
      ensures currentNoteId == old(currentNoteId)
      ensures noteId !in Ids(notes)
      ensures noteId !in Ids(old(notes)) ==> notes == old(notes)
      ensures UniqueIds(old(notes)) ==> UniqueIds(notes)
    {
      if UniqueIds(notes) {
        DeleteKeepsUnique(notes, noteId);
      }
      notes := Without(notes, noteId);
    }
  }

  /** Deleting the only note, while it is selected, leaves nothing to show. */
  method DeleteOnlyNoteScenario(a: string)
  {
    var app := new App(Some([Note(a, "A")]));
    app.SetCurrentNoteId(a);
    app.DeleteNote(a);
    var current := app.FindCurrentNote();
    assert current == None && app.notes == [];
  }

  /** Two creations in a row: the newer note comes first, the ids differ. */
  method CreateTwiceScenario(a: string, b: string)
    requires a != b
  {
    var app := new App(None);
    app.CreateNewNote(a);
    app.CreateNewNote(b);
    assert app.notes == [Note(b, Placeholder), Note(a, Placeholder)];
  }

  /** Editing the second note moves it, with its new body, to the front; after
      deleting it, the first remaining note is shown. */
  method EditThenDeleteScenario(a: string, b: string)
    requires a != b
  {
    var app := new App(Some([Note(a, "# A"), Note(b, "# B")]));
    app.SetCurrentNoteId(b);
    UpdatedUniqueMatch(app.notes, 1, "# B2");
    app.UpdateNote("# B2");
    assert app.notes == [Note(b, "# B2"), Note(a, "# A")];
    app.DeleteNote(b);
    var current := app.FindCurrentNote();
    assert current == Some(Note(a, "# A"));
  }

  /** Editing a note whose id is carried by it alone moves only that note,
      even when other notes share an id among themselves. */
  method EditBesideDuplicatesScenario(a: string, b: string)
    requires a != b
  {
    var app := new App(Some([Note(a, "x"), Note(b, "1"), Note(b, "2")]));
    app.SetCurrentNoteId(a);
    assert SoleAt(app.notes, 0);
    app.UpdateNote("t");
    assert app.notes == [Note(a, "t"), Note(b, "1"), Note(b, "2")];
  }
}
