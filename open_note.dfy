/** The "open" command of open_note.go: pick a note by "#id" or by title,
    hand its body to the editor, and write the edited text back when it
    changed. The editor session is a parameter: given the text the editor
    starts with, it says what came back. */
module OpenNoteCommand {
  import opened Wrappers
  import opened Util
  import Strconv
  import opened Database

  datatype OpenReply =
    | OpenFailed(message: string)
    /** "No changes.": the saved text equals the body the editor started with. */
    | NoChanges
    /** "'title' updated!" */
    | NoteUpdated(title: string)
    /** The Go runtime panic of notes[0] on an empty result. */
    | IndexOutOfRange

  const NeedFilter := "Need note id or (partial) title"

  /** Where choosing the note leaves the command: stopped with a reply, or
      with the note to hand to the editor. */
  datatype Selection = Stop(reply: OpenReply) | Chosen(note: Note)

  /** The row after the edited text is saved over it: the title derived
      from the text, the text as body, the new modified time, the old
      created time. */
  function SavedRow(row: Row, text: string, now: string): (saved: Row)
    ensures saved.created == row.created && saved.body == text && saved.modified == now
    ensures saved.title == TitleFromBody(text)
  {
    row.(title := TitleFromBody(text), body := text, modified := now)
  }

  /** What open does once it has settled on row `id` and started the
      editor on `seed`: the reply, and the table `after` it leaves. */
  ghost predicate EditOutcome(before: Rows, after: Rows, id: int, seed: string,
                              session: EditSession, now: string, reply: OpenReply)
    requires id in before
  {
    match session
    case EditorFailed => reply == OpenFailed("Could not open file") && after == before
    case Unreadable => reply == OpenFailed("Could not read file contents") && after == before
    case Saved(text) =>
      if text == seed then reply == NoChanges && after == before
      else reply == NoteUpdated(TitleFromBody(text)) && after == before[id := SavedRow(before[id], text, now)]
  }

  /** OpenNote (open_note.go:15-72). `args` are the command's arguments,
      `editor` the editor session, `now` the timestamp the clock gives.
      The ghost result `target` is the row the command settled on. */
  method OpenNote(store: NoteStore, args: seq<string>, editor: string -> EditSession, now: string)
    returns (reply: OpenReply, ghost target: int)
    requires store.Valid()
    modifies store`rows
    ensures store.Valid()
    ensures TitlesDerived(old(store.rows)) ==> TitlesDerived(store.rows)
    ensures store.rows.Keys == old(store.rows).Keys
    ensures |args| == 0 ==> reply == OpenFailed(NeedFilter) && store.rows == old(store.rows)
    ensures |args| > 0 && HasPrefix(args[0], "#") ==> ById(old(store.rows), store.rows, args[0], editor, now, reply, target)
    ensures |args| > 0 && !HasPrefix(args[0], "#") ==>
      var hits := MatchingIds(old(store.rows), args[0], store.matches);
      if hits == {} then
        reply == IndexOutOfRange && store.rows == old(store.rows)
      else
        && target in hits
        && EditOutcome(old(store.rows), store.rows, target, "", editor(""), now, reply)
  {
    target := 0;
    var selection := SelectNote(store, args);
    if selection.Stop? {
      return selection.reply, target;
    }
    target := selection.note.id;
    reply := EditAndSave(store, selection.note, editor, now);
  }

  /** open_note.go:16-45: choose the note to open. On the "#id" path it is
      fetched with its body; on the title path it is some matching row as
      the title query returns it, whose body was not selected and is
      empty. */
  method SelectNote(store: NoteStore, args: seq<string>) returns (s: Selection)
    ensures s.Chosen? ==> s.note.id in store.rows
    ensures |args| == 0 ==> s == Stop(OpenFailed(NeedFilter))
    ensures |args| > 0 && HasPrefix(args[0], "#") ==>
      match Strconv.Atoi(args[0][1..])
      case Failure(_) => s == Stop(OpenFailed("Invalid Id"))
      case Success(id) =>
        if id in store.rows then s == Chosen(Note(id, store.rows[id].title, store.rows[id].body, "", ""))
        else s == Stop(OpenFailed("Could not find note"))
    ensures |args| > 0 && !HasPrefix(args[0], "#") ==>
      var hits := MatchingIds(store.rows, args[0], store.matches);
      if hits == {} then s == Stop(IndexOutOfRange)
      else s.Chosen? && s.note.id in hits && s.note == Summary(s.note.id, store.rows[s.note.id])
  {
    if |args| == 0 {
      return Stop(OpenFailed(NeedFilter));
    }
    var filter := args[0];
    if HasPrefix(filter, "#") {
      var found := FindByIdFilter(store, filter);
      if found.Failure? {
        return Stop(OpenFailed(found.error));
      }
      return Chosen(found.value);
    }
    // The lookup error is discarded in the source; several matches only
    // print a warning before the first one is taken.
    var notes := store.FindNotesBySubstring(filter);
    if |notes| == 0 {
      return Stop(IndexOutOfRange);
    }
    s := Chosen(notes[0]);
  }

  /** The "#id" path of open: a malformed id, an id with no row, or the
      edit of that row, started on its stored body. */
  ghost predicate ById(before: Rows, after: Rows, filter: string, editor: string -> EditSession,
                       now: string, reply: OpenReply, target: int)
    requires |filter| > 0
  {
    match Strconv.Atoi(filter[1..])
    case Failure(_) => reply == OpenFailed("Invalid Id") && after == before
    case Success(id) =>
      if id !in before then
        reply == OpenFailed("Could not find note") && after == before
      else
        target == id && EditOutcome(before, after, id, before[id].body, editor(before[id].body), now, reply)
  }

  /** open_note.go:27-36: parse the id after '#' and fetch that note with
      its body. */
  method FindByIdFilter(store: NoteStore, filter: string) returns (r: Result<Note>)
    requires HasPrefix(filter, "#")
    ensures r.Failure? ==> r.error == "Invalid Id" || r.error == "Could not find note"
    ensures match Strconv.Atoi(filter[1..])
      case Failure(_) => r == Failure("Invalid Id")
      case Success(id) =>
        if id in store.rows then r == Success(Note(id, store.rows[id].title, store.rows[id].body, "", ""))
        else r == Failure("Could not find note")
  {
    var id := Strconv.Atoi(filter[1..]);
    if id.Failure? {
      return Failure("Invalid Id");
    }
    var found := store.FindNoteById(id.value);
    if found.Failure? {
      return Failure("Could not find note");
    }
    r := found;
  }

  /** open_note.go:47-70: run the editor on the note's body and, when the
      text changed, give the note the new body, its derived title and the
      new modified time and write it back with UpdateNote. */
  method EditAndSave(store: NoteStore, note: Note, editor: string -> EditSession, now: string)
    returns (reply: OpenReply)
    requires store.Valid() && note.id in store.rows
    modifies store`rows
    ensures store.Valid()
    ensures TitlesDerived(old(store.rows)) ==> TitlesDerived(store.rows)
    ensures EditOutcome(old(store.rows), store.rows, note.id, note.body, editor(note.body), now, reply)
  {
    var session := editor(note.body);
    if session.EditorFailed? {
      return OpenFailed("Could not open file");
    }
    if session.Unreadable? {
      return OpenFailed("Could not read file contents");
    }
    if note.body == session.text {
      return NoChanges;
    }

    var edited := note;
    edited := edited.(body := session.text);
    edited := edited.(title := TitleFromBody(edited.body));
    edited := edited.(modified := now);
    store.UpdateNote(edited);
    reply := NoteUpdated(edited.title);
    if TitlesDerived(old(store.rows)) {
      UpdatedKeepsTitlesDerived(old(store.rows), edited);
    }
  }

  /** OpenNote as evidently intended: an unmatched title is reported as
      "Could not find note" instead of crashing, and a note picked by title
      is fetched with its body, so the editor starts on the stored text. */
  method OpenNoteIntended(store: NoteStore, args: seq<string>, editor: string -> EditSession, now: string)
    returns (reply: OpenReply, ghost target: int)
    requires store.Valid()
    modifies store`rows
    ensures store.Valid()
    ensures TitlesDerived(old(store.rows)) ==> TitlesDerived(store.rows)
    ensures store.rows.Keys == old(store.rows).Keys
    ensures reply != IndexOutOfRange
    ensures |args| == 0 ==> reply == OpenFailed(NeedFilter) && store.rows == old(store.rows)
    ensures |args| > 0 && HasPrefix(args[0], "#") ==> ById(old(store.rows), store.rows, args[0], editor, now, reply, target)
    ensures |args| > 0 && !HasPrefix(args[0], "#") ==>
      var hits := MatchingIds(old(store.rows), args[0], store.matches);
      if hits == {} then
        reply == OpenFailed("Could not find note") && store.rows == old(store.rows)
      else
        && target in hits
        && EditOutcome(old(store.rows), store.rows, target, old(store.rows)[target].body,
                       editor(old(store.rows)[target].body), now, reply)
  {
    target := 0;
    var selection := SelectNoteIntended(store, args);
    if selection.Stop? {
      return selection.reply, target;
    }
    target := selection.note.id;
    reply := EditAndSave(store, selection.note, editor, now);
  }

  /** The choice of note as evidently intended: an unmatched title stops
      with "Could not find note", and a note matched by title is fetched
      again by its id, so it comes with its stored body. */
  method SelectNoteIntended(store: NoteStore, args: seq<string>) returns (s: Selection)
    ensures s.Chosen? ==> s.note.id in store.rows
    ensures s != Stop(IndexOutOfRange)
    ensures |args| == 0 ==> s == Stop(OpenFailed(NeedFilter))
    ensures |args| > 0 && HasPrefix(args[0], "#") ==>
      match Strconv.Atoi(args[0][1..])
      case Failure(_) => s == Stop(OpenFailed("Invalid Id"))
      case Success(id) =>
        if id in store.rows then s == Chosen(Note(id, store.rows[id].title, store.rows[id].body, "", ""))
        else s == Stop(OpenFailed("Could not find note"))
    ensures |args| > 0 && !HasPrefix(args[0], "#") ==>
      var hits := MatchingIds(store.rows, args[0], store.matches);
      if hits == {} then s == Stop(OpenFailed("Could not find note"))
      else
        && s.Chosen? && s.note.id in hits
        && s.note == Note(s.note.id, store.rows[s.note.id].title, store.rows[s.note.id].body, "", "")
  {
    if |args| == 0 {
      return Stop(OpenFailed(NeedFilter));
    }
    var filter := args[0];
    var found: Result<Note>;
    if HasPrefix(filter, "#") {
      found := FindByIdFilter(store, filter);
    } else {
      var notes := store.FindNotesBySubstring(filter);
      if |notes| == 0 {
        return Stop(OpenFailed("Could not find note"));
      }
      found := store.FindNoteById(notes[0].id);
    }
    if found.Failure? {
      return Stop(OpenFailed(found.error));
    }
    s := Chosen(found.value);
  }
}
