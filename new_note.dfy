/** The "new" command of new_note.go: start the editor on an empty file and
    store what was written as a new note, unless nothing was written. */
module NewNoteCommand {
  import opened Util
  import opened Database

  datatype NewReply =
    | NewFailed(message: string)
    /** "Note not created since text is empty." */
    | NotCreated
    /** "'title' added." */
    | Added(title: string)

  /** NewNote (new_note.go:10-45). `editor` is the editor session, started
      here on the empty text, and `now` the timestamp the clock gives. */
  method NewNote(store: NoteStore, editor: string -> EditSession, now: string) returns (reply: NewReply)
    requires store.Valid()
    modifies store
    ensures store.Valid()
    ensures TitlesDerived(old(store.rows)) ==> TitlesDerived(store.rows)
    ensures match editor("")
      case EditorFailed =>
        reply == NewFailed("Problem editing note file") && store.rows == old(store.rows)
      case Unreadable =>
        reply == NewFailed("Could not read file contents") && store.rows == old(store.rows)
      case Saved(body) =>
        if body == "" then
          reply == NotCreated && store.rows == old(store.rows)
        else
          && reply == Added(TitleFromBody(body))
          && old(store.nextId) !in old(store.rows)
          && store.rows == old(store.rows)[old(store.nextId) := Row(TitleFromBody(body), body, now, now)]
  {
    var session := editor("");
    if session.EditorFailed? {
      return NewFailed("Problem editing note file");
    }
    if session.Unreadable? {
      return NewFailed("Could not read file contents");
    }
    var body := session.text;
    if body == "" {
      return NotCreated;
    }
    var title := TitleFromBody(body);
    store.InsertNote(Note(0, title, body, now, now));
    reply := Added(title);
    if TitlesDerived(old(store.rows)) {
      InsertedKeepsTitlesDerived(old(store.rows), old(store.nextId), Row(title, body, now, now));
    }
  }
}
