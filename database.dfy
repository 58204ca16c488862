/** The Notes table of database.go as an in-memory map from rowid to the
    four stored columns, the queries and statements the program runs on
    it, and the facts those statements guarantee. */
module Database {
  import opened Wrappers
  import opened Util

  /** The four columns of the full-text table: title, body, created,
      modified. Timestamps are opaque RFC 3339 strings. */
  datatype Row = Row(title: string, body: string, created: string, modified: string)

  /** The Note record the program passes around: a rowid and the columns
      a query selected (those it did not select are empty). */
  datatype Note = Note(id: int, title: string, body: string, created: string, modified: string)

  type Rows = map<int, Row>

  const NoteNotFound := "could not find note by Id"
  const IdNotFound := "id not found"

  /** What "SELECT rowid, title, created, modified" yields for one row:
      the body is not selected and stays empty. */
  function Summary(id: int, row: Row): (n: Note)
    ensures n.id == id && n.body == ""
    ensures n.(body := row.body) == Note(id, row.title, row.body, row.created, row.modified)
  {
    Note(id, row.title, "", row.created, row.modified)
  }

  /** The rows whose title satisfies `title MATCH pattern`, where `matches`
      is the engine's trigram match relation. */
  function MatchingIds(t: Rows, pattern: string, matches: (string, string) -> bool): (ids: set<int>)
    ensures ids <= t.Keys
  {
    set id | id in t && matches(t[id].title, pattern)
  }

  /** A row is selected by `title MATCH pattern` exactly when the match
      relation holds of its title. */
  lemma MatchingIdsExactly(t: Rows, pattern: string, matches: (string, string) -> bool, id: int)
    requires id in t
    ensures id in MatchingIds(t, pattern, matches) <==> matches(t[id].title, pattern)
  {
  }

  /** `notes` is a result set holding the summary of each row in `ids`
      exactly once, in some order. */
  predicate ListsExactly(notes: seq<Note>, t: Rows, ids: set<int>) {
    && ids <= t.Keys
    && |notes| == |ids|
    && (forall i | 0 <= i < |notes| :: notes[i].id in ids && notes[i] == Summary(notes[i].id, t[notes[i].id]))
    && (forall i, j | 0 <= i < j < |notes| :: notes[i].id != notes[j].id)
    && (forall id | id in ids :: exists i | 0 <= i < |notes| :: notes[i].id == id)
  }

  lemma HasMember(s: set<int>)
    requires s != {}
    ensures exists x :: x in s
  {
    assert (forall x :: x !in s) ==> s == {};
  }

  /** Appending the summary of a row not yet listed extends the listing
      by that row. */
  lemma ListsOneMore(notes: seq<Note>, t: Rows, ids: set<int>, id: int)
    requires ListsExactly(notes, t, ids)
    requires id in t && id !in ids
    ensures ListsExactly(notes + [Summary(id, t[id])], t, ids + {id})
  {
    var more := notes + [Summary(id, t[id])];
    assert forall i | 0 <= i < |notes| :: more[i] == notes[i];
    assert more[|notes|].id == id;
  }

  /** "UPDATE Notes SET title, body, modified WHERE rowid = note.id": the
      row with that id takes the note's title, body and modified and keeps
      its created; every other row, and the set of ids, stays as it was. */
  function Updated(t: Rows, note: Note): (u: Rows)
    ensures u.Keys == t.Keys
    ensures note.id in t ==>
      u[note.id] == Row(note.title, note.body, t[note.id].created, note.modified)
    ensures forall id | id in t && id != note.id :: u[id] == t[id]
    ensures note.id !in t ==> u == t
  {
    if note.id in t then
      t[note.id := t[note.id].(title := note.title, body := note.body, modified := note.modified)]
    else t
  }

  /** Deleting the matching rows removes exactly as many rows as matched,
      and leaves no row that matches. */
  lemma DeleteByTitleCount(t: Rows, pattern: string, matches: (string, string) -> bool)
    ensures |t - MatchingIds(t, pattern, matches)| == |t| - |MatchingIds(t, pattern, matches)|
    ensures MatchingIds(t - MatchingIds(t, pattern, matches), pattern, matches) == {}
  {
    var ids := MatchingIds(t, pattern, matches);
    var rest := t - ids;
    assert rest.Keys == t.Keys - ids;
    assert t.Keys == rest.Keys + ids;
    assert |t.Keys| == |rest.Keys| + |ids|;
  }

  /** The program's data invariant: every stored title is the one derived
      from its row's body. The table itself does not enforce it (insert
      and update store whatever title they are given); the commands keep
      it. */
  ghost predicate TitlesDerived(t: Rows) {
    forall id :: DerivedAt(t, id)
  }

  /** The invariant at one rowid. Keeping it a predicate of its own makes
      it the trigger of TitlesDerived, so the invariant is unfolded only
      where a proof asks about a particular row. */
  ghost predicate DerivedAt(t: Rows, id: int) {
    id in t ==> t[id].title == TitleFromBody(t[id].body)
  }

  /** An UPDATE whose title is derived from its body keeps every title
      derived. */
  lemma UpdatedKeepsTitlesDerived(t: Rows, note: Note)
    requires TitlesDerived(t) && note.title == TitleFromBody(note.body)
    ensures TitlesDerived(Updated(t, note))
  {
    var u := Updated(t, note);
    forall k ensures DerivedAt(u, k) {
      assert DerivedAt(t, k);
    }
  }

  /** Adding a row whose title is derived from its body keeps every title
      derived. */
  lemma InsertedKeepsTitlesDerived(t: Rows, id: int, row: Row)
    requires TitlesDerived(t) && row.title == TitleFromBody(row.body)
    ensures TitlesDerived(t[id := row])
  {
    var u := t[id := row];
    forall k ensures DerivedAt(u, k) {
      assert DerivedAt(t, k);
    }
  }

  /** Dropping rows, and leaving the others as they were, keeps every
      title derived. */
  lemma SubTableKeepsTitlesDerived(t: Rows, u: Rows)
    requires TitlesDerived(t)
    requires u.Keys <= t.Keys && forall id | id in u :: u[id] == t[id]
    ensures TitlesDerived(u)
  {
    forall k ensures DerivedAt(u, k) {
      assert DerivedAt(t, k);
    }
  }

  /** Saving the same note twice is the same as saving it once. */
  lemma UpdateIdempotent(t: Rows, note: Note)
    ensures Updated(Updated(t, note), note) == Updated(t, note)
  {
  }

  /** The in-memory Notes table. `rows` is the table; `nextId` is the
      rowid the engine gives the next inserted row; `matches` is the
      trigram MATCH relation, one and the same for every query. */
  class NoteStore {
    var rows: Rows
    var nextId: int
    const matches: (string, string) -> bool

    /** Every stored rowid is below the next one to be handed out. */
    ghost predicate Valid()
      reads this
    {
      forall id | id in rows :: id < nextId
    }

    /** An empty table, as "CREATE VIRTUAL TABLE ... USING fts5" leaves it. */
    constructor (matches: (string, string) -> bool)
      ensures Valid() && rows == map[] && nextId == 1 && this.matches == matches
    {
      rows := map[];
      nextId := 1;
      this.matches := matches;
    }

    /** The "for results.Next()" loop of the summary queries: one Summary
        per selected row, appended in whatever order the engine yields. */
    method Collect(ids: set<int>) returns (notes: seq<Note>)
      requires ids <= rows.Keys
      ensures ListsExactly(notes, rows, ids)
    {
      notes := [];
      var remaining := ids;
      ghost var done: set<int> := {};
      while remaining != {}
        invariant remaining <= ids && done == ids - remaining
        invariant ListsExactly(notes, rows, done)
        decreases |remaining|
      {
        HasMember(remaining);
        var id :| id in remaining;
        ListsOneMore(notes, rows, done, id);
        notes := notes + [Summary(id, rows[id])];
        remaining := remaining - {id};
        done := done + {id};
      }
    }

    /** FindAllNotes: every row once, with id, title, created and modified
        and an empty body. */
    method FindAllNotes() returns (notes: seq<Note>)
      ensures ListsExactly(notes, rows, rows.Keys)
    {
      notes := Collect(rows.Keys);
    }

    /** FindNotesBySubstring: exactly the rows whose title matches; no
        match is an empty result, not an error. */
    method FindNotesBySubstring(pattern: string) returns (notes: seq<Note>)
      ensures ListsExactly(notes, rows, MatchingIds(rows, pattern, matches))
      ensures notes == [] <==> MatchingIds(rows, pattern, matches) == {}
    {
      notes := Collect(MatchingIds(rows, pattern, matches));
    }

    /** FindNoteById: fails exactly when no row has the id; otherwise the
        row's title and body under the requested id. */
    method FindNoteById(id: int) returns (r: Result<Note>)
      ensures r.Failure? <==> id !in rows
      ensures r.Failure? ==> r.error == NoteNotFound
      ensures r.Success? ==> r.value == Note(id, rows[id].title, rows[id].body, "", "")
    {
      if id !in rows {
        return Failure(NoteNotFound);
      }
      var row := rows[id];
      r := Success(Note(id, row.title, row.body, "", ""));
    }

    /** InsertNote: one new row with the note's four columns under a rowid
        the engine picks (the note's own id is ignored); existing rows are
        untouched. */
    method InsertNote(note: Note)
      requires Valid()
      modifies this
      ensures Valid()
      ensures old(nextId) !in old(rows)
      ensures rows == old(rows)[old(nextId) := Row(note.title, note.body, note.created, note.modified)]
    {
      rows := rows[nextId := Row(note.title, note.body, note.created, note.modified)];
      nextId := nextId + 1;
    }

    /** UpdateNote: rewrites title, body and modified of the row with
        note.id; when there is no such row nothing changes and no error is
        reported. */
    method UpdateNote(note: Note)
      requires Valid()
      modifies this`rows
      ensures Valid()
      ensures rows == Updated(old(rows), note)
    {
      if note.id in rows {
        var row := rows[note.id];
        rows := rows[note.id := Row(note.title, note.body, row.created, note.modified)];
      }
    }

    /** DeleteNoteByTitle: removes exactly the matching rows and reports
        how many there were; zero is a valid count. */
    method DeleteNoteByTitle(pattern: string) returns (n: int)
      requires Valid()
      modifies this`rows
      ensures Valid()
      ensures rows == old(rows) - MatchingIds(old(rows), pattern, matches)
      ensures n == |MatchingIds(old(rows), pattern, matches)| == |old(rows)| - |rows|
      ensures MatchingIds(rows, pattern, matches) == {}
    {
      var hits := MatchingIds(rows, pattern, matches);
      DeleteByTitleCount(rows, pattern, matches);
      rows := rows - hits;
      n := |hits|;
    }

    /** DeleteNoteById: removes the row with that id, or reports "id not
        found" when no row was affected. */
    method DeleteNoteById(id: int) returns (r: Outcome)
      requires Valid()
      modifies this`rows
      ensures Valid()
      ensures rows == old(rows) - {id}
      ensures r.Fail? <==> id !in old(rows)
      ensures r.Fail? ==> r.error == IdNotFound
    {
      if id !in rows {
        return Fail(IdNotFound);
      }
      rows := rows - {id};
      r := Pass;
    }
  }
}
