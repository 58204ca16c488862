# ggg notes: a Dafny model of the note store and its commands

ggg is a command-line note keeper. A note is created in an external
editor, stored as one row of an SQLite FTS5 table with the columns title,
body, created and modified, and can later be opened for editing, listed,
searched and deleted. A note is found either by its rowid, written `#N`
on the command line, or by matching text in its title. This project
models three parts of the program:

- **Title derivation** (`Util`). The title is the body's first line with
  one leading `#` removed and the surrounding whitespace trimmed.
- **The Notes table** (`Database`). The table becomes a class `NoteStore`.
  It holds a map `rows` from rowid to `Row`, the rowid `nextId` that the
  next insert gets, and `matches`, the trigram `MATCH` relation. That
  relation is a parameter of the store, and every title query and the
  delete-by-title statement use the same one. Each query and statement is
  a method whose contract says which rows it returns or changes, which
  fields stay fixed, and when it reports "not found".
- **The `new`, `open` and `delete` commands** (`NewNoteCommand`,
  `OpenNoteCommand`, `DeleteNoteCommand`). Each handler is a method that
  takes the store. The things the real program reads from the outside world are
  parameters: the command-line arguments, the editor session (a function
  from the text the editor starts with to what came back), the word typed
  at the confirmation prompt, and the current timestamp. The reply records
  what the handler reports.

Every stored title is the one derived from its row's body; no command
edits a title on its own. The table does not enforce this: insert and
update store whatever title they are given. The predicate
`TitlesDerived` states it, and each of the three commands keeps it.

`Strconv` models Go's `strconv.Atoi` on the text after `#`, and the decimal
form in which `#N` ids are printed. `Scenarios` calls the store and the
commands on any store for the insert-then-find round trip, and on concrete
notes for the open scenarios, and proves the outcomes from their contracts
alone.

Three behaviours of the code are easy to miss:

- Fetching a note by id leaves created and modified empty. Only title and
  body are selected.
- Opening by a title that nothing matches crashes the program (Go's index
  out of range on `notes[0]`). It does not report "not found".
- Opening by title starts the editor on an empty text, because the
  title query does not select the body (see Findings).

## Model

| member | source | states |
|---|---|---|
| Util.FirstLine | util.go:14 | The first line is a prefix of the body, holds no newline, and ends where the body ends or just before a newline |
| Util.TrimLeft | util.go:16 | The result is a suffix of the input that does not start with whitespace, and only whitespace was cut off |
| Util.TrimRight | util.go:16 | The result is a prefix of the input that does not end with whitespace, and only whitespace was cut off |
| Util.TrimSpace | util.go:16 | The input is whitespace, then the result, then whitespace; the result has no whitespace at either end |
| Util.IsSpaceCases | util.go:16 | The whitespace `strings.TrimSpace` cuts: below U+0100 exactly tab, newline, vertical tab, form feed, carriage return, space, NEL and NBSP; nothing above U+3000; never `#` |
| Util.TrimPrefix | util.go:15 | With the prefix present, the input is the prefix followed by the result (the prefix is removed once); without it, the input comes back unchanged |
| Util.HasPrefixPointwise | open_note.go:27 | `strings.HasPrefix` holds exactly when the text is at least as long as the prefix and agrees with it at every position; the same test picks the `#N` path at delete_note.go:24 |
| Util.TitleFromBody | util.go:13-18 | The title holds no newline, has no whitespace at either end (so no trailing `\r`), occurs contiguously in the body's first line, and is empty for an empty body or a body starting with a newline |
| Util.FirstLineBeforeNewline | util.go:14 | The first line of `line + "\n" + rest` is `line`, whatever `rest` is |
| Util.TitleIgnoresLaterLines | util.go:14 | Lines after the first never affect the title |
| Util.CrLfGivesSameTitle | util.go:14-16 | A first line ending in `\r\n` gives the same title as the bare line |
| Util.TrimSpaceDropsTrailingSpace | util.go:16 | One more trailing whitespace character does not change the trimmed text |
| Util.OnlyOneHashRemoved | util.go:15 | A first line `##` + rest gives the title `#` + rest with its trailing whitespace trimmed: only one `#` is removed |
| Util.HashAfterSpaceIsKept | util.go:15-16 | When the first line starts with whitespace, no `#` is removed: the title is just the trimmed line |
| Util.HeadingTitle | util.go:13-18 | A heading line `#`, whitespace, then a word gives that word as the title, whatever lines follow |
| Util.ShoppingListTitle | util.go:13-18 | The body `# Shopping List\nMilk\nEggs` has the title `Shopping List` |
| Util.DoubleHashExample | util.go:15 | The first line `## A` gives the title `# A` |
| Util.HashAfterPadding | util.go:15-16 | A `#` heading after leading whitespace keeps its `#` in the title (for example ` # A` gives `# A`), because `#` is removed before the whitespace is trimmed |
| Strconv.Atoi | open_note.go:28 | An accepted id is a 64-bit int, and its text is an optional sign followed by ASCII digits only |
| Strconv.NatToDecimal | find_notes.go:36 | The decimal form of a natural number is a digit string with that value and no leading zero |
| Strconv.Itoa | find_notes.go:36 | The printed form of an id is non-empty, starts with `-` exactly for a negative id, and the digits after the optional sign have the id's absolute value |
| Strconv.AtoiItoa | delete_note.go:25 | Every 64-bit id, printed in decimal, parses back to the same id |
| Strconv.AtoiRejectsOverflow | delete_note.go:25 | Well-formed text whose value does not fit in 64 bits is refused, at both ends of the range |
| Strconv.AtoiAcceptsWellFormed | open_note.go:28 | The converse of `Atoi`'s contract: an optional `+` or `-` followed by at least one digit is accepted exactly when its value fits in 64 bits, and then parses to that value |
| Strconv.LeadingZeros | open_note.go:28 | Leading zeros are accepted and do not change the value, and `Atoi` returns the same result with or without them, so `#007` names note 7 |
| Database.Summary | database.go:54-63 | A scanned row keeps its id, title, created and modified, and its body is empty: only the body differs from the stored row |
| Database.MatchingIds | database.go:92 | The rows `title MATCH pattern` selects are stored rows |
| Database.MatchingIdsExactly | database.go:92 | A stored row is selected exactly when the match relation holds of its title |
| Database.Updated | database.go:117-120 | UPDATE keeps the set of rowids. It gives the row `note.id` the note's title, body and modified, and keeps that row's created. Every other row is unchanged. An absent id changes nothing |
| Database.DeleteByTitleCount | database.go:122-135 | Deleting the matching rows removes exactly as many rows as matched, and no remaining row matches |
| Database.UpdatedKeepsTitlesDerived | database.go:117-120 | When every stored title is derived from its body, an UPDATE whose title is derived from its body keeps that so |
| Database.InsertedKeepsTitlesDerived | database.go:111-115 | Adding a row whose title is derived from its body keeps every stored title derived |
| Database.SubTableKeepsTitlesDerived | database.go:122-148 | Removing rows, and leaving the others as they were, keeps every stored title derived |
| Database.UpdateIdempotent | database.go:117-120 | Saving the same note twice gives the same table as saving it once |
| Database.ListsOneMore | database.go:98-106 | Appending the summary of a row not yet listed extends the listing by exactly that row |
| Database.NoteStore.constructor | database.go:27-35 | A new table is empty, and its first rowid will be 1 |
| Database.NoteStore.Collect | database.go:55-63 | The scan loop returns the summary of each selected row exactly once: id, title, created, modified, and an empty body |
| Database.NoteStore.FindAllNotes | database.go:47-66 | One entry per stored row, each with its id, title, created and modified, and an empty body |
| Database.NoteStore.FindNotesBySubstring | database.go:90-109 | Exactly the rows whose title matches, each once, with an empty body; no match gives an empty list, not an error |
| Database.NoteStore.FindNoteById | database.go:68-88 | Fails with "could not find note by Id" exactly when no row has the id; otherwise returns that row's title and body under the requested id |
| Database.NoteStore.InsertNote | database.go:111-115 | Adds one row holding the note's four columns under a rowid that was not in use (the note's own id is ignored); existing rows are unchanged |
| Database.NoteStore.UpdateNote | database.go:117-120 | The table becomes `Updated(old table, note)`: only title, body and modified of row `note.id` change; a missing id changes nothing and is not an error; every rowid stays below the next one to be handed out |
| Database.NoteStore.DeleteNoteByTitle | database.go:122-135 | Removes exactly the matching rows and returns their number, which equals the drop in row count; zero is a valid result, and no matching row remains |
| Database.NoteStore.DeleteNoteById | database.go:137-148 | Removes only the row with that id; reports "id not found" exactly when there was no such row |
| Scenarios.InsertThenFind | database.go:111-115 | In any store, inserting a note and fetching it by the rowid it got gives back its title and body, and that rowid was not in use before |
| OpenNoteCommand.SavedRow | open_note.go:62-64 | The saved row has the edited text as body, the title derived from it, and the new modified time; created is kept |
| OpenNoteCommand.FindByIdFilter | open_note.go:27-36 | Text after `#` that does not parse gives "Invalid Id". An id with no row gives "Could not find note". Otherwise the result is that row's title and body |
| OpenNoteCommand.SelectNote | open_note.go:16-45 | No argument stops with "Need note id or (partial) title". On the `#N` path, bad text stops with "Invalid Id", a missing id with "Could not find note", and otherwise the note is that row with its body. On the title path, no match is the `notes[0]` crash; otherwise the note is some matching row as the title query returns it, with an empty body |
| OpenNoteCommand.EditAndSave | open_note.go:47-71 | The two editor failures change nothing. Saved text equal to the starting text gives "No changes." and changes nothing. Otherwise only the chosen row changes, to `SavedRow` of the text. Titles derived from bodies stay so |
| OpenNoteCommand.OpenNote | open_note.go:15-72 | No argument fails. On the `#N` path, bad text or a missing id fails and changes nothing, and otherwise the row's stored body is edited. On the title path, no match is the index-out-of-range crash; otherwise some matching row is edited, starting from an empty text. The set of rowids never changes, and titles derived from bodies stay so |
| OpenNoteCommand.SelectNoteIntended | open_note.go:38-45 | The choice of note as intended: it never crashes. An unmatched title stops with "Could not find note". A title match comes with its stored body |
| OpenNoteCommand.OpenNoteIntended | open_note.go:38-45 | An unmatched title reports "Could not find note" and nothing crashes. On the title path the editor starts on the chosen row's stored body. Titles derived from bodies stay so |
| DeleteNoteCommand.DeleteNote | delete_note.go:13-57 | No argument fails and deletes nothing. `#N` goes only to delete-by-id: bad text gives "Invalid Id", a missing id gives "Could not delete note", and either way nothing changes. More than one title match with a reply other than `y` cancels and deletes nothing. Otherwise the matching rows are deleted without a prompt (zero or one match) or after one. The reported count equals the count shown at the prompt and the number of rows removed, and no matching row remains. Rows that remain are unchanged, so titles derived from bodies stay so |
| NewNoteCommand.NewNote | new_note.go:10-45 | Editor failures and an empty text insert nothing. Otherwise exactly one row is added under a fresh rowid: the text verbatim as body, `TitleFromBody(text)` as title, and the same timestamp as created and modified. Titles derived from bodies stay so |
| Scenarios.OpenUnmatchedTitlePanics | open_note.go:39-44 | Opening by a title that matches nothing reaches the out-of-range `notes[0]` |
| Scenarios.OpenByTitleLosesBody | open_note.go:39-47 | Opening a note by title and appending a line replaces its whole stored body with that line |
| Scenarios.OpenUnmatchedTitleIntended | open_note.go:33-36 | With the intended behaviour, an unmatched title is reported as "Could not find note" |
| Scenarios.OpenByTitleKeepsBody | open_note.go:47 | With the intended behaviour, appending a line keeps the stored body in front of it |

## Left out

- FindMatchesOnAllNotes (database.go:150-170): the snippet text comes from FTS5's built-in `snippet()`, a foreign call. The model could only pass the markers and the 200 limit through.
- CreateDB, OpenDB and the package-level connection (database.go:9-45), and GetDBPath, InitDB and FindAndOpenDB (main.go:27-71): driver and file-system plumbing. The store's constructor stands for a freshly created table. The "DB file not found" branch of each command is not modelled.
- Storage-engine failures of `Query`, `Exec`, `Scan` and `RowsAffected`: every statement succeeds in the model. So these error replies are not modelled: "Could not find notes" and the title-path "Could not delete note" in delete, "Could not update note" in open, and the returned insert error in new.
- ListNotes and FindMatches (list_notes.go, find_notes.go) and the duplicate handlers in main.go (main.go:73-279): table rendering, relative times, ANSI colours and printing. Each handler is modelled once, from its own file.
- OpenTempFileInEditor (util.go:20-61): temporary files, `$EDITOR` lookup and the subprocess. The editor is the `editor` parameter. Its failures are `EditorFailed` (could not open) and `Unreadable` (could not read back).
- LogOnVerbose, ExitWithError and ExitWithMessage (util.go:63-76): console output and exit codes. A reply carries the message without the coloured "ERROR:" prefix.
- Database.NoteStore.InsertNote: promises only a rowid not in use, taken from a counter. It does not model SQLite's choice of the largest rowid plus one, which can reuse an id after the highest row is deleted, or the 64-bit rowid limit.
- Database.NoteStore.matches: real trigram `MATCH` semantics and case folding are not modelled. Title matching is one abstract relation.
- Database.NoteStore.Collect: result order is not modelled. Rows come back in an arbitrary order, so the "first match" taken by open is some matching row.
- OpenNoteCommand.OpenNote: does not record the "Ambiguous note title" warning printed when several titles match.
- Text is a sequence of Unicode code points. Go strings are bytes, and invalid UTF-8 handling inside `strings.TrimSpace` is not modelled. Whitespace is the fixed set of Go's `unicode.IsSpace`.
- The confirmation reply is the first whitespace-separated word that `fmt.Scanf("%s")` reads. The clock is the `now` parameter, an opaque RFC 3339 string.
- Note is a value. The in-place field updates of the `note` pointer (open_note.go:62-64) become successive datatype updates of a local variable. The pointer is never shared, so no aliasing is lost.

## Findings

| source | as written | input that shows it | evidently intended | confidence | as-written member | corrected member |
|---|---|---|---|---|---|---|
| open_note.go:39-44 | The title path indexes `notes[0]` without checking that anything matched | `open Books` when no title matches `Books` | Report "Could not find note", as the `#N` path does | high; not executed | OpenNoteCommand.OpenNote, exhibited by Scenarios.OpenUnmatchedTitlePanics | OpenNoteCommand.OpenNoteIntended, exhibited by Scenarios.OpenUnmatchedTitleIntended |
| open_note.go:39-47 with database.go:92-105 | The title path edits a note from the title query, which selects no body, so the editor starts on an empty text and saving overwrites the stored body | the note `# Groceries\nmilk\n`, `open Groc`, the user appends `eggs\n` and saves: the body becomes `eggs\n` | Start the editor on the stored body, as the `#N` path does | high; not executed | OpenNoteCommand.OpenNote, exhibited by Scenarios.OpenByTitleLosesBody | OpenNoteCommand.OpenNoteIntended, exhibited by Scenarios.OpenByTitleKeepsBody |
