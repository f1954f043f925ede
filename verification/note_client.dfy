/** The notes client component: the note list shown, the creation form, and
    the copy of the list kept under the 'notes' key of local storage. */
module NoteClient {
  import opened NoteList

  datatype Option<T> = None | Some(value: T)

  /** What the 'notes' key of local storage can hold once it is set: the
      serialization of a note list, or a blob the load cannot use (the empty
      string, or text that does not parse). */
  datatype Blob = Serialized(notes: seq<Note>) | Unusable

  /** The list a freshly mounted component shows after loading `stored`. */
  function Restore(stored: Option<Blob>): (r: seq<Note>)
  {
    match stored
    case Some(Serialized(notes)) => notes
    case _ => []
  }

  /** The submit button is enabled exactly when both fields are filled in and
      no save is in progress. */
  predicate SubmitEnabled(title: string, content: string, isLoading: bool)
  {
    title != "" && content != "" && !isLoading
  }

  class NotesManager {
    var notes: seq<Note>
    var title: string
    var content: string
    var imagePreview: string
    var isLoading: bool
    /** The 'notes' key of local storage; None while it has never been set. */
    var storage: Option<Blob>

    /** Reloading from storage would show the list that is shown now. Every
        write to storage that succeeds re-establishes it; a write that throws
        (the storage quota exceeded, say) can break it. */
    ghost predicate Synced()
      reads this
    {
      Restore(storage) == notes
    }

    /** Mounting the component: the initial state, then the load effect. */
    constructor (stored: Option<Blob>)
      ensures Synced() && !isLoading
      ensures storage == stored && notes == Restore(stored)
      ensures title == "" && content == "" && imagePreview == ""
    {
      notes := [];
      title, content, imagePreview := "", "", "";
      isLoading := false;
      storage := stored;
      new;
      Load();
    }

    /** The load effect: a stored list that parses replaces the shown list. An
        absent or empty blob is ignored and an unparseable one is logged;
        either way the list stays as it was. */
    method Load()
      modifies this`notes
      ensures storage.Some? && storage.value.Serialized? ==> notes == storage.value.notes
      ensures !(storage.Some? && storage.value.Serialized?) ==> notes == old(notes)
    {
      match storage {
        case Some(Serialized(saved)) =>
          notes := saved;
        case _ =>
      }
    }

    /** Typing in the title field. */
    method SetTitle(value: string)
      modifies this`title
      ensures title == value
    {
      title := value;
    }

    /** Typing in the content field. */
    method SetContent(value: string)
      modifies this`content
      ensures content == value
    {
      content := value;
    }

    /** The image reader finishing: its data URL becomes the pending image. */
    method SetImagePreview(dataUrl: string)
      modifies this`imagePreview
      ensures imagePreview == dataUrl
    {
      imagePreview := dataUrl;
    }

    /** Submitting the form at clock reading `now` (milliseconds, used as the
        id) and time `nowIso`; `writeOk` says whether writing storage succeeds.
        With an empty title or content nothing changes. Otherwise the new note
        goes in front of the list. If the write succeeds, storage receives the
        whole new list and the form is cleared. If it throws, the handler stops
        there: storage keeps the old blob, the form stays filled and the save
        stays in progress, which keeps the submit button disabled. */
    method Submit(now: int, nowIso: string, writeOk: bool)
      modifies this
      ensures old(title) == "" || old(content) == "" ==> unchanged(this)
      ensures old(title) != "" && old(content) != "" ==>
        notes == [Note(now, old(title), old(content), old(imagePreview), nowIso)] + old(notes)
      ensures old(title) != "" && old(content) != "" && writeOk ==>
        && storage == Some(Serialized(notes))
        && title == "" && content == "" && imagePreview == "" && !isLoading
      ensures old(title) != "" && old(content) != "" && !writeOk ==>
        && storage == old(storage)
        && title == old(title) && content == old(content) && imagePreview == old(imagePreview)
        && isLoading
      ensures notes != old(notes) <==> old(title) != "" && old(content) != ""
      ensures !old(isLoading) ==> (old(SubmitEnabled(title, content, isLoading)) <==> notes != old(notes))
      ensures old(title) != "" && old(content) != "" && old(Synced()) ==> (Synced() <==> writeOk)
    {
      if title == "" || content == "" {
        return;
      }
      isLoading := true;
      var newNote := Note(now, title, content, imagePreview, nowIso);
      var updatedNotes := [newNote] + notes;
      notes := updatedNotes;
      if !writeOk {
        return;
      }
      storage := Some(Serialized(updatedNotes));
      title, content, imagePreview := "", "", "";
      isLoading := false;
    }

    /** Deleting `id`: every note carrying it leaves the list. If writing
        storage succeeds it receives the remainder; if the write throws,
        storage keeps the old blob. The form is untouched either way. */
    method Delete(id: int, writeOk: bool)
      modifies this`notes, this`storage
      ensures notes == Without(old(notes), id)
      ensures storage == if writeOk then Some(Serialized(notes)) else old(storage)
      ensures writeOk ==> Synced()
      ensures !writeOk && old(Synced()) ==> (Synced() <==> Count(old(notes), id) == 0)
    {
      var updatedNotes := Without(notes, id);
      notes := updatedNotes;
      if writeOk {
        storage := Some(Serialized(updatedNotes));
      }
      WithoutAbsent(old(notes), id);
    }
  }

  /** Restarting the client: a component mounted from the storage that `m`
      left behind shows the same notes in the same order. */
  method Remount(m: NotesManager) returns (m': NotesManager)
    requires m.Synced()
    ensures fresh(m') && m'.Synced() && !m'.isLoading
    ensures m'.notes == m.notes && m'.storage == m.storage
  {
    m' := new NotesManager(m.storage);
  }
}
