/** Calls of the store and the commands whose outcomes are proved from
    the contracts alone: the insert-then-find round trip on any store, and,
    on concrete notes, the two ways the title path of "open" goes wrong,
    together with the intended behaviour. Title matching here is a stand-in relation (the
    pattern is a prefix of the title), enough for the notes used. */
module Scenarios {
  import opened Wrappers
  import opened Util
  import opened Database
  import OpenNoteCommand

  function PrefixMatch(title: string, pattern: string): bool {
    HasPrefix(title, pattern)
  }

  lemma DiffersAtStart(s: string, p: string)
    requires s != [] && p != [] && s[0] != p[0]
    ensures !HasPrefix(s, p)
  {
  }

  const Groceries := "# Groceries\nmilk\n"

  /** The editor session of a user who appends a line and saves. */
  function AppendEggs(seed: string): EditSession {
    Saved(seed + "eggs\n")
  }

  /** In any store, inserting a note and fetching it by the rowid it got
      gives back its title and body; the rowid was not in use before. */
  method InsertThenFind(store: NoteStore, note: Note) returns (id: int, found: Result<Note>)
    requires store.Valid()
    modifies store
    ensures store.Valid()
    ensures id !in old(store.rows) && id in store.rows
    ensures found == Success(Note(id, note.title, note.body, "", ""))
  {
    id := store.nextId;
    store.InsertNote(note);
    found := store.FindNoteById(id);
  }

  /** A store holding the single note Groceries, created and modified at `at`. */
  method GroceriesStore(at: string) returns (store: NoteStore)
    ensures fresh(store) && store.Valid() && store.matches == PrefixMatch
    ensures store.rows == map[1 := Row("Groceries", Groceries, at, at)]
  {
    store := new NoteStore(PrefixMatch);
    store.InsertNote(Note(0, "Groceries", Groceries, at, at));
  }

  /** Opening by a title that nothing matches reaches notes[0] on an empty
      result. */
  method OpenUnmatchedTitlePanics() returns (reply: OpenNoteCommand.OpenReply)
    ensures reply == OpenNoteCommand.IndexOutOfRange
  {
    var store := GroceriesStore("t0");
    assert MatchingIds(store.rows, "Books", store.matches) == {} by {
      DiffersAtStart("Groceries", "Books");
    }
    DiffersAtStart("Books", "#");
    ghost var target;
    reply, target := OpenNoteCommand.OpenNote(store, ["Books"], AppendEggs, "t1");
  }

  /** Opening by title starts the editor on an empty text, so appending a
      line and saving replaces the whole stored body with that line. */
  method OpenByTitleLosesBody() returns (before: string, after: string)
    ensures before == Groceries && after == "eggs\n"
  {
    var store := GroceriesStore("t0");
    before := store.rows[1].body;
    assert MatchingIds(store.rows, "Groc", store.matches) == {1} by {
      assert PrefixMatch("Groceries", "Groc");
    }
    DiffersAtStart("Groc", "#");
    var reply, target := OpenNoteCommand.OpenNote(store, ["Groc"], AppendEggs, "t1");
    after := store.rows[1].body;
  }

  /** The intended open reports an unmatched title as not found. */
  method OpenUnmatchedTitleIntended() returns (reply: OpenNoteCommand.OpenReply)
    ensures reply == OpenNoteCommand.OpenFailed("Could not find note")
  {
    var store := GroceriesStore("t0");
    assert MatchingIds(store.rows, "Books", store.matches) == {} by {
      DiffersAtStart("Groceries", "Books");
    }
    DiffersAtStart("Books", "#");
    ghost var target;
    reply, target := OpenNoteCommand.OpenNoteIntended(store, ["Books"], AppendEggs, "t1");
  }

  /** The intended open starts the editor on the stored body, so the line
      the user appends is added to it. */
  method OpenByTitleKeepsBody() returns (after: string)
    ensures after == Groceries + "eggs\n"
  {
    var store := GroceriesStore("t0");
    assert MatchingIds(store.rows, "Groc", store.matches) == {1} by {
      assert PrefixMatch("Groceries", "Groc");
    }
    DiffersAtStart("Groc", "#");
    var reply, target := OpenNoteCommand.OpenNoteIntended(store, ["Groc"], AppendEggs, "t1");
    after := store.rows[1].body;
  }
}
